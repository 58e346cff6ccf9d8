/** What a partial timestamp in a query stands for: the first instant whose
    printed stamp begins with it. */
module PartialTime {
  import opened Common
  import opened Decimal
  import opened Calendar
  import opened Rfc3339
  import P = Predicates
  import Q = Query

  // ----- surrounding space -----

  /** Tab, line feed, vertical tab, form feed, carriage return or space. */
  predicate Blank(c: char) { 9 <= c as int <= 13 || c == ' ' }

  predicate AllTrimmed(s: string) { forall c | c in s :: Blank(c) }

  lemma {:induction false} TrimStartDrops(a: string, v: string)
    requires AllTrimmed(a)
    ensures Q.TrimStart(a + v) == Q.TrimStart(v)
  {
    if a == [] {
      assert a + v == v;
    } else {
      assert a[0] in a && (a + v)[1..] == a[1..] + v;
      TrimStartDrops(a[1..], v);
    }
  }

  lemma {:induction false} TrimEndDrops(v: string, b: string)
    requires AllTrimmed(b)
    ensures Q.TrimEnd(v + b) == Q.TrimEnd(v)
  {
    if b == [] {
      assert v + b == v;
    } else {
      var init, last := b[..|b| - 1], b[|b| - 1];
      assert last in b && (v + b)[..|v + b| - 1] == v + init;
      TrimEndDrops(v, init);
    }
  }

  /** Text that begins and ends with something else is its own trimmed form. */
  predicate Bounded(v: string) { v != [] ==> !Blank(v[0]) && !Blank(v[|v| - 1]) }

  /** Trimming takes exactly the surrounding space. */
  lemma TrimmedCore(a: string, v: string, b: string)
    requires AllTrimmed(a) && AllTrimmed(b) && Bounded(v)
    ensures Q.TrimEnd(Q.TrimStart(a + v + b)) == v
  {
    assert a + v + b == a + (v + b);
    TrimStartDrops(a, v + b);
    if v == [] {
      assert v + b == b == b + [];
      TrimStartDrops(b, []);
    } else {
      assert (v + b)[0] == v[0];
      TrimEndDrops(v, b);
    }
  }

  /** Space around a partial timestamp changes nothing. */
  lemma SpaceDoesNotMatter(a: string, v: string, b: string)
    requires AllTrimmed(a) && AllTrimmed(b) && Bounded(v)
    ensures Q.ParsePartial(a + v + b) == Q.ParsePartial(v)
  {
    hide Q.TrimStart, Q.TrimEnd, Rfc3339.ParseRfc3339;
    TrimmedCore(a, v, b);
    TrimmedCore([], v, []);
    assert [] + v + [] == v;
  }

  /** A whole stamp is read as the RFC 3339 reader reads it. */
  lemma WholeStamp(s: string)
    requires ParseRfc3339(s).Some?
    ensures Q.ParsePartial(s) == ParseRfc3339(s)
  {
    hide Print, ParseRfc3339, Q.TrimStart, Q.TrimEnd;
    AcceptsExactlyStamps(s, ParseRfc3339(s).value);
    var st :| Fits(st) && Print(st) == s;
    StampIsBounded(st);
    TrimmedCore([], s, []);
    assert [] + s + [] == s;
  }

  lemma StampIsBounded(st: Stamp)
    requires Fits(st)
    ensures |Print(st)| >= 20 && Bounded(Print(st))
  {
    hide Dec2, Dec4;
    var s := Print(st);
    var zone := ZoneText(st.zone);
    assert s[0] == Dec4(st.clock.year)[0] && Dec4(st.clock.year)[0] in Dec4(st.clock.year);
    assert s[|s| - 1] == zone[|zone| - 1];
    if st.zone.Offset? {
      assert zone[|zone| - 1] == Dec2(st.zone.minutes)[1] && Dec2(st.zone.minutes)[1] in Dec2(st.zone.minutes);
    }
  }

  // ----- the first instant of what a prefix leaves open -----

  predicate PartialLength(k: nat) { k == 4 || k == 7 || k == 10 || k == 13 || k == 16 || k == 19 }

  /** The fields behind the first `k` characters set to their least values. */
  function StartClock(c: Clock, k: nat): Clock {
    Clock(c.year, if k < 7 then 1 else c.month, if k < 10 then 1 else c.day, 'T',
          if k < 13 then 0 else c.hour, if k < 16 then 0 else c.minute, if k < 19 then 0 else c.second)
  }

  lemma ClockPrefix(c: Clock, k: nat)
    requires ClockFits(c) && c.sep == 'T' && PartialLength(k)
    ensures ClockText(c)[..k]
         == if k == 4 then Dec4(c.year)
            else if k == 7 then Dec4(c.year) + "-" + Dec2(c.month)
            else if k == 10 then DateText(c)
            else if k == 13 then DateText(c) + "T" + Dec2(c.hour)
            else if k == 16 then DateText(c) + "T" + (Dec2(c.hour) + ":" + Dec2(c.minute))
            else ClockText(c)
  {
    hide Dec2, Dec4;
    var d, t, s := DateText(c), TimeText(c), ClockText(c);
    assert s == d + ("T" + t);
    if k <= 10 {
      assert s[..k] == d[..k];
    } else {
      assert s[..k] == d + ("T" + t)[..k - 10] && ("T" + t)[..k - 10] == "T" + t[..k - 11];
    }
  }

  lemma Dec2Tells(m: nat, n: nat)
    requires m < 100 && n < 100 && Dec2(m) == Dec2(n)
    ensures m == n
  {
    hide Dec2;
    ReadDec2(m);
    ReadDec2(n);
  }

  /** Stamps that begin alike show the same fields there. */
  lemma PrefixTells(c: Clock, d: Clock, k: nat)
    requires ClockFits(c) && ClockFits(d) && c.sep == d.sep == 'T' && PartialLength(k)
    requires ClockText(c)[..k] == ClockText(d)[..k]
    ensures StartClock(c, k) == StartClock(d, k)
  {
    hide Dec2, Dec4;
    var s, t := ClockText(c)[..k], ClockText(d)[..k];
    FieldAt(c, k);
    FieldAt(d, k);
    ReadDec4(c.year);
    ReadDec4(d.year);
    if k >= 7 { Dec2Tells(c.month, d.month); }
    if k >= 10 { Dec2Tells(c.day, d.day); }
    if k >= 13 { Dec2Tells(c.hour, d.hour); }
    if k >= 16 { Dec2Tells(c.minute, d.minute); }
    if k >= 19 { Dec2Tells(c.second, d.second); }
  }

  lemma FieldAt(c: Clock, k: nat)
    requires ClockFits(c) && PartialLength(k)
    ensures var s := ClockText(c)[..k];
            s[0..4] == Dec4(c.year) && (k >= 7 ==> s[5..7] == Dec2(c.month)) && (k >= 10 ==> s[8..10] == Dec2(c.day))
            && (k >= 13 ==> s[11..13] == Dec2(c.hour)) && (k >= 16 ==> s[14..16] == Dec2(c.minute))
            && (k >= 19 ==> s[17..19] == Dec2(c.second))
  {
    hide Dec2, Dec4;
    var s := ClockText(c);
    DateSlices(Dec4(c.year), Dec2(c.month), Dec2(c.day));
    TimeSlices(Dec2(c.hour), Dec2(c.minute), Dec2(c.second));
    assert s[..10] == DateText(c) && s[11..] == TimeText(c);
    PrefixSlices(s, k);
  }

  lemma PrefixSlices(s: Bytes, k: nat)
    requires |s| == 19 && k <= 19
    ensures var p, d, t := s[..k], s[..10], s[11..];
            (k >= 4 ==> p[0..4] == d[0..4]) && (k >= 7 ==> p[5..7] == d[5..7]) && (k >= 10 ==> p[8..10] == d[8..10])
            && (k >= 13 ==> p[11..13] == t[0..2]) && (k >= 16 ==> p[14..16] == t[3..5])
            && (k >= 19 ==> p[17..19] == t[6..8])
  {
  }

  /** Starting fields name a time that is not later. */
  lemma StartIsNotLater(c: Clock, n: nat, k: nat)
    requires ClockFits(c) && NamesATime(c) && PartialLength(k)
    ensures ClockFits(StartClock(c, k)) && NamesATime(StartClock(c, k))
    ensures Instant(StartClock(c, k), 0, 0) <= Instant(c, 0, n * 1000)
  {
    var d := StartClock(c, k);
    var t, u := Date(c.year, c.month, c.day), Date(d.year, d.month, d.day);
    assert Valid(u);
    DayNumberOrders(t, u);
    DayNumberOrders(u, t);
    hide DaysFromCivil;
    assert DayNumber(u) <= DayNumber(t);
  }

  // ----- what is padded -----

  function Padding(k: nat): string {
    if k == 4 then "-01-01T00:00:00Z"
    else if k == 7 then "-01T00:00:00Z"
    else if k == 10 then "T00:00:00Z"
    else if k == 13 then ":00:00Z"
    else if k == 16 then ":00Z"
    else "Z"
  }

  lemma SmallDigits()
    ensures Dec2(0) == "00" && Dec2(1) == "01"
  {
  }

  /** What follows the first `k` characters of a clock made of its fields. */
  lemma Suffixes(y: string, m: string, d: string, h: string, mi: string, s: string)
    requires |y| == 4 && |m| == |d| == |h| == |mi| == |s| == 2
    ensures var c := y + "-" + m + "-" + d + "T" + (h + ":" + mi + ":" + s);
            |c| == 19 && c[4..] == "-" + m + ("-" + d + ("T" + (h + ":" + mi + ":" + s)))
            && c[7..] == "-" + d + ("T" + (h + ":" + mi + ":" + s)) && c[10..] == "T" + (h + ":" + mi + ":" + s)
            && c[13..] == ":" + mi + ":" + s && c[16..] == ":" + s && c[19..] == ""
  {
  }

  lemma PaddingOfYear()
    ensures "-" + "01" + ("-" + "01" + ("T" + ("00" + ":" + "00" + ":" + "00"))) + "Z" == Padding(4)
  {
  }

  lemma PaddingOfMonth()
    ensures "-" + "01" + ("T" + ("00" + ":" + "00" + ":" + "00")) + "Z" == Padding(7)
  {
  }

  lemma PaddingOfDay()
    ensures "T" + ("00" + ":" + "00" + ":" + "00") + "Z" == Padding(10)
  {
  }

  lemma PaddingOfTime()
    ensures ":" + "00" + ":" + "00" + "Z" == Padding(13) && ":" + "00" + "Z" == Padding(16) && "" + "Z" == Padding(19)
  {
  }

  lemma StartSuffix(c: Clock, k: nat)
    requires PartialLength(k) && c == StartClock(c, k) && ClockFits(c)
    ensures ClockText(c)[k..] + "Z" == Padding(k)
  {
    SmallDigits();
    PaddingOfYear();
    PaddingOfMonth();
    PaddingOfDay();
    PaddingOfTime();
    hide Dec2, Dec4, Padding;
    Suffixes(Dec4(c.year), Dec2(c.month), Dec2(c.day), Dec2(c.hour), Dec2(c.minute), Dec2(c.second));
  }

  /** The padded text is the stamp of the starting fields. */
  lemma PaddedPrefix(c: Clock, k: nat)
    requires ClockFits(c) && c.sep == 'T' && PartialLength(k) && ClockFits(StartClock(c, k))
    ensures ClockText(c)[..k] + Padding(k) == Print(Stamp(StartClock(c, k), None, Utc))
  {
    hide Dec2, Dec4, ClockText, Padding;
    var d := StartClock(c, k);
    SamePrefix(c, d, k);
    StartSuffix(d, k);
    assert ClockText(d) == ClockText(d)[..k] + ClockText(d)[k..];
    Regroup(ClockText(d)[..k], ClockText(d)[k..]);
  }

  lemma Regroup(a: string, b: string)
    ensures a + (b + "Z") == a + b + ("" + "Z")
  {
  }

  lemma SamePrefix(c: Clock, d: Clock, k: nat)
    requires ClockFits(c) && ClockFits(d) && c.sep == d.sep == 'T' && PartialLength(k)
    requires d == StartClock(c, k)
    ensures ClockText(c)[..k] == ClockText(d)[..k]
  {
    hide Dec2, Dec4;
    ClockPrefix(c, k);
    ClockPrefix(d, k);
  }

  // ----- what a partial timestamp denotes -----

  lemma PaddedIsRead(v: string, k: nat)
    requires PartialLength(k) && |v| == k && Bounded(v)
    ensures Q.ParsePartial(v) == ParseRfc3339(v + Padding(k))
  {
    hide Q.TrimStart, Q.TrimEnd, ParseRfc3339;
    TrimmedCore([], v, []);
    assert [] + v + [] == v;
  }

  lemma PrefixIsBounded(c: Clock, k: nat)
    requires ClockFits(c) && PartialLength(k)
    ensures Bounded(ClockText(c)[..k])
  {
    hide Dec2, Dec4;
    var v := ClockText(c)[..k];
    FieldAt(c, k);
    EndsInDigit(v[0..4]);
    if k >= 7 { EndsInDigit(v[k - 2..k]); }
  }

  lemma EndsInDigit(s: string)
    requires s != [] && AllDigits(s)
    ensures IsDigit(s[0]) && IsDigit(s[|s| - 1])
  {
    assert s[0] in s && s[|s| - 1] in s;
  }

  /** The prefix of a printed stamp. */
  lemma FormatPrefix(ts: int, c: Clock, n: nat, k: nat)
    requires ClockFits(c) && n < 1000 && FormatTs(ts) == Print(Stamp(c, Some(Dec3(n)), Utc)) && PartialLength(k)
    ensures |FormatTs(ts)| >= k && FormatTs(ts)[..k] == ClockText(c)[..k]
  {
    hide FormatTs, ClockText, Dec3;
  }

  /** The first characters of a printed stamp, as far as the year, the month, the
      day, the hour, the minute or the second, stand for the least instant whose
      stamp begins with them. */
  lemma PartialIsLeast(t: int, k: nat) returns (u: int)
    requires YEAR_0 <= t < YEAR_10000 && PartialLength(k)
    ensures |FormatTs(t)| >= k && Q.ParsePartial(FormatTs(t)[..k]) == Some(u)
    ensures YEAR_0 <= u <= t && |FormatTs(u)| >= k && FormatTs(u)[..k] == FormatTs(t)[..k]
    ensures forall w | YEAR_0 <= w < YEAR_10000 && |FormatTs(w)| >= k && FormatTs(w)[..k] == FormatTs(t)[..k] :: u <= w
  {
    hide FormatTs, Instant, Print, ClockText, Q.ParsePartial, ParseRfc3339, Dec3, Padding, NamesATime, StartClock;
    var c, n := ShownFields(t);
    StartIsNotLater(c, n, k);
    var d := StartClock(c, k);
    StartSep(c, k);
    u := Instant(d, 0, 0);
    FormatPrefix(t, c, n, k);
    PrefixIsBounded(c, k);
    PaddedIsRead(ClockText(c)[..k], k);
    PaddedPrefix(c, k);
    ReadsWhole(d);
    TimeIsPrintedBack(d, 0);
    FormatPrefix(u, d, 0, k);
    SamePrefix(c, d, k);
    InYears(d);
    forall w | YEAR_0 <= w < YEAR_10000 && |FormatTs(w)| >= k && FormatTs(w)[..k] == FormatTs(t)[..k]
      ensures u <= w
    {
      var e, m := ShownFields(w);
      FormatPrefix(w, e, m, k);
      PrefixTells(c, e, k);
      StartIsNotLater(e, m, k);
    }
  }

  lemma StartSep(c: Clock, k: nat)
    ensures StartClock(c, k).sep == 'T'
  {
  }

  lemma ReadsWhole(c: Clock)
    requires ClockFits(c)
    ensures ParseRfc3339(Print(Stamp(c, None, Utc))) == Some(Instant(c, 0, 0))
  {
    hide Instant, Print, ReadStamp;
    ReadsEveryStamp(Stamp(c, None, Utc));
  }

  lemma InYears(c: Clock)
    requires ClockFits(c) && NamesATime(c)
    ensures YEAR_0 <= Instant(c, 0, 0)
  {
    var t := Date(c.year, c.month, c.day);
    CivilAfterDays(t);
    YearBounds(DayNumber(t));
    hide DaysFromCivil;
  }

  // ----- and what a query on it compiles to -----

  lemma PrefixIsBare(c: Clock, k: nat, op: Q.Op)
    requires ClockFits(c) && c.sep == 'T' && PartialLength(k) && !op.Regex?
    ensures Q.LiteralFits(op, Q.Bare(ClockText(c)[..k]))
  {
    hide Dec2, Dec4, Value;
    var v := ClockText(c)[..k];
    forall x | x in v ensures IsDigit(x) || x == '-' || x == ':' || x == 'T' {
      ClockChars(c, x);
    }
    FieldAt(c, k);
    EndsInDigit(v[0..4]);
  }

  lemma ClockChars(c: Clock, x: char)
    requires ClockFits(c) && c.sep == 'T' && x in ClockText(c)
    ensures IsDigit(x) || x == '-' || x == ':' || x == 'T'
  {
    hide Dec2, Dec4;
    assert x in DateText(c) || x == 'T' || x in TimeText(c);
  }

  /** A comparison of `ts` with the first characters of a printed stamp compiles to
      the comparison with the least instant whose stamp begins with them. */
  lemma QueryOnPrefix(valid: string -> bool, t: int, k: nat) returns (u: int)
    requires YEAR_0 <= t < YEAR_10000 && PartialLength(k)
    ensures |FormatTs(t)| >= k
    ensures var v := FormatTs(t)[..k];
            Q.Compile(valid, "ts>" + v) == Ok(P.TimeRange(u, P.Greater))
            && Q.Compile(valid, "ts>=" + v) == Ok(P.TimeRange(u, P.GreaterEq))
            && Q.Compile(valid, "ts<" + v) == Ok(P.TimeRange(u, P.Less))
            && Q.Compile(valid, "ts<=" + v) == Ok(P.TimeRange(u, P.LessEq))
    ensures YEAR_0 <= u <= t && |FormatTs(u)| >= k && FormatTs(u)[..k] == FormatTs(t)[..k]
    ensures forall w | YEAR_0 <= w < YEAR_10000 && |FormatTs(w)| >= k && FormatTs(w)[..k] == FormatTs(t)[..k] :: u <= w
  {
    hide FormatTs, Print, ClockText, Q.ParsePartial, Q.Compile, Instant, NamesATime;
    u := PartialIsLeast(t, k);
    var c, n := ShownFields(t);
    FormatPrefix(t, c, n, k);
    var v := FormatTs(t)[..k];
    PrefixIsBare(c, k, Q.Gt);
    PrefixIsBare(c, k, Q.Ge);
    PrefixIsBare(c, k, Q.Lt);
    PrefixIsBare(c, k, Q.Le);
    Compared(valid, Q.Gt, v, u);
    Compared(valid, Q.Ge, v, u);
    Compared(valid, Q.Lt, v, u);
    Compared(valid, Q.Le, v, u);
    assert "ts" + (">" + v) == "ts>" + v && "ts" + (">=" + v) == "ts>=" + v;
    assert "ts" + ("<" + v) == "ts<" + v && "ts" + ("<=" + v) == "ts<=" + v;
  }

  lemma Compared(valid: string -> bool, op: Q.Op, v: string, u: int)
    requires (op.Gt? || op.Ge? || op.Lt? || op.Le?) && Q.LiteralFits(op, Q.Bare(v)) && Q.ParsePartial(v) == Some(u)
    ensures Q.Compile(valid, "ts" + (Q.OpText(op) + v))
         == Ok(P.TimeRange(u, match op
                              case Gt => P.Greater
                              case Ge => P.GreaterEq
                              case Lt => P.Less
                              case _ => P.LessEq))
  {
    hide Q.Compile, Q.ParsePartial, Q.LiteralFits;
    var q := Q.Clause("ts", op, Q.Bare(v));
    assert Q.FieldFits("ts") by { TsIsAField(); }
    Q.CompilePrinted(valid, q);
    OneClause(valid, q);
  }

  lemma TsIsAField()
    ensures Q.FieldFits("ts")
  {
    assert "ts"[1..] == "s" && "s"[1..] == "";
    assert Q.AlphaRun("s") == 1 && Q.AlphaRun("ts") == 2;
    assert "ts"[..2] == "ts";
  }

  lemma OneClause(valid: string -> bool, q: Q.Query)
    requires q.Clause? && Q.Writable(valid, q)
    ensures Q.OrOf(Q.OrParts(valid, q)) == Q.BuildPredicate(valid, q.field, q.op, q.value.text).value
    ensures Q.Print(q) == q.field + (Q.OpText(q.op) + Q.LiteralText(q.value))
  {
    hide Q.BuildPredicate, Q.LiteralFits, Q.FieldFits;
    assert Q.UnaryPart(valid, q) == Q.BuildPredicate(valid, q.field, q.op, q.value.text).value;
    assert Q.AndParts(valid, q) == [Q.UnaryPart(valid, q)];
    assert Q.Text(q, 0) == Q.Plain(q);
  }
}
