/** The RFC 3339 timestamp reader of the indexer and the timestamp printer of
    the headless modes. */
module Rfc3339 {
  import opened Common
  import opened Decimal
  import opened Calendar

  const U32 := 0x1_0000_0000

  // ----- the syntax: `YYYY-MM-DD[T ]HH:MM:SS[.f*](Z|±HH:MM)` -----

  datatype Clock = Clock(year: nat, month: nat, day: nat, sep: char, hour: nat, minute: nat, second: nat)

  datatype Zone = Utc | Offset(east: bool, hours: nat, minutes: nat)

  datatype Stamp = Stamp(clock: Clock, frac: Option<Bytes>, zone: Zone)

  predicate ClockFits(c: Clock) {
    c.year < 10000 && c.month < 100 && c.day < 100 && c.hour < 100 && c.minute < 100 && c.second < 100
    && (c.sep == 'T' || c.sep == ' ')
  }

  predicate ZoneFits(z: Zone) { z.Offset? ==> z.hours < 100 && z.minutes < 100 }

  predicate Fits(st: Stamp) {
    ClockFits(st.clock) && ZoneFits(st.zone) && (st.frac.Some? ==> AllDigits(st.frac.value))
  }

  function DateText(c: Clock): (s: Bytes)
    requires ClockFits(c)
    ensures |s| == 10
  {
    Dec4(c.year) + "-" + Dec2(c.month) + "-" + Dec2(c.day)
  }

  function TimeText(c: Clock): (s: Bytes)
    requires ClockFits(c)
    ensures |s| == 8
  {
    Dec2(c.hour) + ":" + Dec2(c.minute) + ":" + Dec2(c.second)
  }

  function ClockText(c: Clock): (s: Bytes)
    requires ClockFits(c)
    ensures |s| == 19
  {
    DateText(c) + [c.sep] + TimeText(c)
  }

  function FracText(f: Option<Bytes>): Bytes { if f.Some? then "." + f.value else "" }

  function ZoneText(z: Zone): Bytes
    requires ZoneFits(z)
  {
    match z
    case Utc => "Z"
    case Offset(east, h, m) => (if east then "+" else "-") + Dec2(h) + ":" + Dec2(m)
  }

  function Print(st: Stamp): Bytes
    requires Fits(st)
  {
    ClockText(st.clock) + (FracText(st.frac) + ZoneText(st.zone))
  }

  function OffsetSeconds(z: Zone): int {
    match z
    case Utc => 0
    case Offset(east, h, m) => (if east then 1 else -1) * (h * 3600 + m * 60)
  }

  function Instant(c: Clock, offset: int, micros: int): int {
    (DaysFromCivil(c.year, c.month, c.day) * 86400 + c.hour * 3600 + c.minute * 60 + c.second - offset)
      * 1000000 + micros
  }

  // ----- the reader, as a function -----

  /** `ascii_u32`: the accumulator is a `u32` and wraps, as in a release build. */
  function AsciiU32(b: Bytes): Option<nat> {
    if AllDigits(b) then Some(Value(b) % U32) else None
  }

  function ReadDate(s: Bytes): Option<(nat, nat, nat)>
    requires |s| == 10
  {
    var year :- AsciiU32(s[0..4]);
    if s[4] != '-' then None else
    var month :- AsciiU32(s[5..7]);
    if s[7] != '-' then None else
    var day :- AsciiU32(s[8..10]);
    Some((year, month, day))
  }

  function ReadTime(s: Bytes): Option<(nat, nat, nat)>
    requires |s| == 8
  {
    var hour :- AsciiU32(s[0..2]);
    if s[2] != ':' then None else
    var minute :- AsciiU32(s[3..5]);
    if s[5] != ':' then None else
    var second :- AsciiU32(s[6..8]);
    Some((hour, minute, second))
  }

  function ReadClock(s: Bytes): Option<Clock>
    requires |s| == 19
  {
    var (year, month, day) :- ReadDate(s[..10]);
    if s[10] != 'T' && s[10] != ' ' then None else
    var (hour, minute, second) :- ReadTime(s[11..]);
    Some(Clock(year, month, day, s[10], hour, minute, second))
  }

  /** Length of the leading digit run. */
  function DigitRun(s: Bytes): (n: nat)
    ensures n <= |s| && AllDigits(s[..n]) && (n < |s| ==> !IsDigit(s[n]))
  {
    if s == [] || !IsDigit(s[0]) then 0
    else
      var n := 1 + DigitRun(s[1..]);
      assert s[..n] == [s[0]] + s[1..][..n - 1];
      n
  }

  function SplitFraction(s: Bytes): (r: (Option<Bytes>, Bytes))
    ensures r.0.Some? ==> AllDigits(r.0.value)
    ensures s == FracText(r.0) + r.1
  {
    if s != [] && s[0] == '.' then
      var n := DigitRun(s[1..]);
      (Some(s[1..][..n]), s[1..][n..])
    else (None, s)
  }

  function ReadZone(s: Bytes): Option<Zone> {
    if s == "Z" then Some(Utc)
    else if |s| == 6 && (s[0] == '+' || s[0] == '-') && s[3] == ':' then
      var h :- AsciiU32(s[1..3]);
      var m :- AsciiU32(s[4..6]);
      Some(Offset(s[0] == '+', h, m))
    else None
  }

  /** Bring `frac`, read from `digits` digits, to six digits: the two loops of
      the reader. */
  function Scale(frac: nat, digits: nat): nat
    decreases if digits < 6 then 6 - digits else digits - 6
  {
    if digits < 6 then Scale(frac * 10, digits + 1)
    else if digits > 6 then Scale(frac / 10, digits - 1)
    else frac
  }

  function FracMicros(f: Option<Bytes>): int
    requires f.Some? ==> AllDigits(f.value)
  {
    if f.None? then 0 else Scale(Value(f.value) % U32, |f.value|)
  }

  function ReadStamp(s: Bytes): (r: Option<Stamp>)
    ensures r.Some? && r.value.frac.Some? ==> AllDigits(r.value.frac.value)
  {
    if |s| < 20 then None else
    var c :- ReadClock(s[..19]);
    var (f, rest) := SplitFraction(s[19..]);
    var z :- ReadZone(rest);
    Some(Stamp(c, f, z))
  }

  /** `parse_rfc3339_micros`. */
  function ParseRfc3339(s: Bytes): Option<int> {
    var st :- ReadStamp(s);
    Some(Instant(st.clock, OffsetSeconds(st.zone), FracMicros(st.frac)))
  }

  // ----- the reader, as the source runs it -----

  method AsciiU32Loop(b: Bytes) returns (r: Option<nat>)
    ensures r == AsciiU32(b)
  {
    var acc := 0;
    for i := 0 to |b|
      invariant AllDigits(b[..i])
      invariant acc == Value(b[..i]) % U32
    {
      if !IsDigit(b[i]) {
        return None;
      }
      assert b[..i + 1][..i] == b[..i];
      ModStep(Value(b[..i]), DigitValue(b[i]));
      acc := (acc * 10 + DigitValue(b[i])) % U32;
    }
    assert b[..|b|] == b;
    r := Some(acc);
  }

  lemma ModStep(v: nat, d: nat)
    ensures ((v % U32) * 10 + d) % U32 == (v * 10 + d) % U32
  {
    var q, m := v / U32, v % U32;
    ModOfSum(10 * q, m * 10 + d);
    assert v * 10 + d == 10 * q * U32 + (m * 10 + d);
  }

  lemma ModOfSum(q: nat, x: nat)
    ensures (q * U32 + x) % U32 == x % U32
  {
    var k, r := x / U32, x % U32;
    assert q * U32 + x == (q + k) * U32 + r;
  }

  method ReadClockFields(s: Bytes) returns (r: Option<Clock>)
    requires |s| == 19
    ensures r == ReadClock(s)
  {
    hide AsciiU32;
    ClockSlices(s);
    var year := AsciiU32Loop(s[0..4]);
    if year.None? || s[4] != '-' { return None; }
    var month := AsciiU32Loop(s[5..7]);
    if month.None? || s[7] != '-' { return None; }
    var day := AsciiU32Loop(s[8..10]);
    if day.None? || (s[10] != 'T' && s[10] != ' ') { return None; }
    var hour := AsciiU32Loop(s[11..13]);
    if hour.None? || s[13] != ':' { return None; }
    var minute := AsciiU32Loop(s[14..16]);
    if minute.None? || s[16] != ':' { return None; }
    var second := AsciiU32Loop(s[17..19]);
    if second.None? { return None; }
    r := Some(Clock(year.value, month.value, day.value, s[10], hour.value, minute.value, second.value));
  }

  lemma ClockSlices(s: Bytes)
    requires |s| == 19
    ensures var d := s[..10]; d[0..4] == s[0..4] && d[5..7] == s[5..7] && d[8..10] == s[8..10]
    ensures var t := s[11..]; t[0..2] == s[11..13] && t[3..5] == s[14..16] && t[6..8] == s[17..19]
  {
  }

  method ParseRfc3339Micros(s: Bytes) returns (r: Option<int>)
    ensures r == ParseRfc3339(s)
  {
    if |s| < 20 { return None; }
    var clock := ReadClockFields(s[..19]);
    if clock.None? { return None; }
    var cursor, micros := FractionLoop(s);
    var zone := ZoneFields(s, cursor);
    if zone.None? { return None; }
    r := Some(Instant(clock.value, OffsetSeconds(zone.value), micros));
  }

  /** The zone part of the reader; the zone must end the text. */
  method ZoneFields(s: Bytes, start: nat) returns (r: Option<Zone>)
    requires start <= |s|
    ensures r == ReadZone(s[start..])
  {
    var cursor := start;
    if cursor >= |s| { return None; }
    if s[cursor] == 'Z' {
      cursor := cursor + 1;
      if cursor != |s| { return None; }
      return Some(Utc);
    } else if s[cursor] == '+' || s[cursor] == '-' {
      var east := s[cursor] == '+';
      cursor := cursor + 1;
      if cursor + 5 > |s| { return None; }
      ghost var z := s[start..];
      assert z[1..3] == s[start + 1..start + 3] && z[4..6] == s[start + 4..start + 6];
      var oh := AsciiU32Loop(s[cursor..cursor + 2]);
      if oh.None? || s[cursor + 2] != ':' { return None; }
      var om := AsciiU32Loop(s[cursor + 3..cursor + 5]);
      if om.None? { return None; }
      cursor := cursor + 5;
      if cursor != |s| { return None; }
      return Some(Offset(east, oh.value, om.value));
    }
    return None;
  }

  /** The fraction part of the reader: cursor after it, and its microseconds. */
  method FractionLoop(s: Bytes) returns (cursor: nat, micros: int)
    requires |s| >= 20
    ensures cursor <= |s| && s[cursor..] == SplitFraction(s[19..]).1
    ensures micros == FracMicros(SplitFraction(s[19..]).0)
  {
    cursor, micros := 19, 0;
    if s[19] == '.' {
      cursor := 20;
      while cursor < |s| && IsDigit(s[cursor])
        invariant 20 <= cursor <= |s|
        invariant DigitRun(s[20..]) == cursor - 20 + DigitRun(s[cursor..])
      {
        assert s[cursor..][1..] == s[cursor + 1..];
        cursor := cursor + 1;
      }
      assert s[19..][1..] == s[20..];
      assert s[20..cursor] == s[20..][..cursor - 20];
      var acc := AsciiU32Loop(s[20..cursor]);
      var frac, digits := acc.value, cursor - 20;
      ghost var goal := Scale(frac, digits);
      while digits < 6
        invariant goal == Scale(frac, digits)
      {
        frac, digits := frac * 10, digits + 1;
      }
      while digits > 6
        invariant digits >= 6 && goal == Scale(frac, digits)
      {
        frac, digits := frac / 10, digits - 1;
      }
      micros := frac;
    }
  }

  // ----- what the reader accepts -----

  lemma ReadDateText(c: Clock)
    requires ClockFits(c)
    ensures ReadDate(DateText(c)) == Some((c.year, c.month, c.day))
  {
    hide Dec2, Dec4, Value;
    DateSlices(Dec4(c.year), Dec2(c.month), Dec2(c.day));
    ReadsSmall(Dec4(c.year), c.year);
    ReadsSmall(Dec2(c.month), c.month);
    ReadsSmall(Dec2(c.day), c.day);
    ReadDec4(c.year);
    ReadDec2(c.month);
    ReadDec2(c.day);
  }

  lemma DateSlices(y: Bytes, m: Bytes, d: Bytes)
    requires |y| == 4 && |m| == 2 && |d| == 2
    ensures var s := y + "-" + m + "-" + d;
            |s| == 10 && s[0..4] == y && s[4] == '-' && s[5..7] == m && s[7] == '-' && s[8..10] == d
  {
  }

  lemma ReadsSmall(s: Bytes, n: nat)
    ensures AllDigits(s) && Value(s) == n && n < U32 ==> AsciiU32(s) == Some(n)
  {
    hide Value;
  }

  lemma ReadTimeText(c: Clock)
    requires ClockFits(c)
    ensures ReadTime(TimeText(c)) == Some((c.hour, c.minute, c.second))
  {
    hide Dec2, Value;
    TimeSlices(Dec2(c.hour), Dec2(c.minute), Dec2(c.second));
    ReadsSmall(Dec2(c.hour), c.hour);
    ReadsSmall(Dec2(c.minute), c.minute);
    ReadsSmall(Dec2(c.second), c.second);
    ReadDec2(c.hour);
    ReadDec2(c.minute);
    ReadDec2(c.second);
  }

  lemma TimeSlices(h: Bytes, m: Bytes, t: Bytes)
    requires |h| == 2 && |m| == 2 && |t| == 2
    ensures var s := h + ":" + m + ":" + t;
            |s| == 8 && s[0..2] == h && s[2] == ':' && s[3..5] == m && s[5] == ':' && s[6..8] == t
  {
  }

  lemma ReadClockText(c: Clock)
    requires ClockFits(c)
    ensures ReadClock(ClockText(c)) == Some(c)
  {
    var s := ClockText(c);
    assert s[..10] == DateText(c) && s[11..] == TimeText(c);
    ReadDateText(c);
    ReadTimeText(c);
  }

  lemma SmallU32(b: Bytes)
    requires (|b| == 2 || |b| == 4) && AsciiU32(b).Some?
    ensures var v := AsciiU32(b).value;
            if |b| == 2 then v < 100 && Dec2(v) == b else v < 10000 && Dec4(v) == b
  {
    hide Value, Dec2, Dec4;
    if |b| == 2 {
      ValueOfPair(b);
    } else {
      ValueOfQuad(b);
    }
    SmallMod(Value(b));
  }

  lemma DateTextOfRead(s: Bytes)
    requires |s| == 10 && ReadDate(s).Some?
    ensures var (y, m, d) := ReadDate(s).value;
            y < 10000 && m < 100 && d < 100 && s == Dec4(y) + "-" + Dec2(m) + "-" + Dec2(d)
  {
    SmallU32(s[0..4]);
    SmallU32(s[5..7]);
    SmallU32(s[8..10]);
    assert s == s[0..4] + [s[4]] + s[5..7] + [s[7]] + s[8..10];
  }

  lemma TimeTextOfRead(s: Bytes)
    requires |s| == 8 && ReadTime(s).Some?
    ensures var (h, m, x) := ReadTime(s).value;
            h < 100 && m < 100 && x < 100 && s == Dec2(h) + ":" + Dec2(m) + ":" + Dec2(x)
  {
    SmallU32(s[0..2]);
    SmallU32(s[3..5]);
    SmallU32(s[6..8]);
    assert s == s[0..2] + [s[2]] + s[3..5] + [s[5]] + s[6..8];
  }

  lemma ClockTextOfRead(s: Bytes)
    requires |s| == 19 && ReadClock(s).Some?
    ensures ClockFits(ReadClock(s).value) && ClockText(ReadClock(s).value) == s
  {
    DateTextOfRead(s[..10]);
    TimeTextOfRead(s[11..]);
    assert s == s[..10] + [s[10]] + s[11..];
  }

  lemma ReadZoneText(z: Zone)
    requires ZoneFits(z)
    ensures ReadZone(ZoneText(z)) == Some(z)
    ensures ZoneText(z) != [] && !IsDigit(ZoneText(z)[0]) && ZoneText(z)[0] != '.'
  {
    hide Dec2, Value;
    if z.Offset? {
      OffsetSlices(z);
      ReadDec2(z.hours);
      ReadDec2(z.minutes);
    }
  }

  lemma OffsetSlices(z: Zone)
    requires ZoneFits(z) && z.Offset?
    ensures var s := ZoneText(z);
            |s| == 6 && s[0] == (if z.east then '+' else '-') && s[3] == ':'
            && s[1..3] == Dec2(z.hours) && s[4..6] == Dec2(z.minutes)
  {
    hide Dec2;
  }

  lemma ZoneTextOfRead(s: Bytes)
    requires ReadZone(s).Some?
    ensures ZoneFits(ReadZone(s).value) && ZoneText(ReadZone(s).value) == s
  {
    hide AsciiU32, Dec2;
    if s != "Z" {
      SmallU32(s[1..3]);
      SmallU32(s[4..6]);
      assert s == [s[0]] + s[1..3] + [s[3]] + s[4..6];
    }
  }

  lemma {:induction false} DigitRunStops(d: Bytes, rest: Bytes)
    requires AllDigits(d) && (rest != [] ==> !IsDigit(rest[0]))
    ensures DigitRun(d + rest) == |d|
  {
    if d == [] {
      assert d + rest == rest;
    } else {
      assert (d + rest)[1..] == d[1..] + rest;
      DigitRunStops(d[1..], rest);
    }
  }

  lemma SplitFracText(f: Option<Bytes>, rest: Bytes)
    requires f.Some? ==> AllDigits(f.value)
    requires rest != [] && !IsDigit(rest[0]) && rest[0] != '.'
    ensures SplitFraction(FracText(f) + rest) == (f, rest)
  {
    hide DigitRun;
    if f.Some? {
      var r := f.value + rest;
      DigitRunStops(f.value, rest);
      assert FracText(f) + rest == ['.'] + r;
      assert (['.'] + r)[1..] == r;
      assert r[..|f.value|] == f.value && r[|f.value|..] == rest;
    } else {
      assert FracText(f) + rest == rest;
    }
  }

  /** Every stamp whose fields fit is read back field by field. */
  lemma ReadsEveryStamp(st: Stamp)
    requires Fits(st)
    ensures ReadStamp(Print(st)) == Some(st)
  {
    ReadClockText(st.clock);
    ReadZoneText(st.zone);
    SplitFracText(st.frac, ZoneText(st.zone));
    var tail := FracText(st.frac) + ZoneText(st.zone);
    assert Print(st)[..19] == ClockText(st.clock) && Print(st)[19..] == tail;
  }

  /** The reader accepts exactly the printed stamps and gives each its instant. */
  lemma AcceptsExactlyStamps(s: Bytes, v: int)
    ensures ParseRfc3339(s) == Some(v) <==>
            exists st :: Fits(st) && Print(st) == s
                         && v == Instant(st.clock, OffsetSeconds(st.zone), FracMicros(st.frac))
  {
    if ParseRfc3339(s) == Some(v) {
      var st := ReadStamp(s).value;
      ClockTextOfRead(s[..19]);
      ZoneTextOfRead(SplitFraction(s[19..]).1);
      assert s == s[..19] + s[19..];
      assert Fits(st) && Print(st) == s;
    }
    forall st | Fits(st) && Print(st) == s
      ensures ReadStamp(s) == Some(st)
    {
      ReadsEveryStamp(st);
    }
  }

  // ----- fractions: truncation to microseconds, and the `u32` limit -----

  /** The first six digits, padded with zeros on the right. */
  function FirstSixDigits(f: Bytes): nat
    requires AllDigits(f)
  {
    if |f| <= 6 then Value(f) * Pow10(6 - |f|) else Value(f[..6])
  }

  /** The fractions that the `u32` accumulator does not spoil. */
  predicate FractionFits(f: Option<Bytes>)
    requires f.Some? ==> AllDigits(f.value)
  {
    f.None? || Value(f.value) < U32 || (|f.value| > 6 && Value(f.value[..6]) == 0)
  }

  lemma {:induction false} ScaleUp(v: nat, n: nat)
    requires n <= 6
    ensures Scale(v, n) == v * Pow10(6 - n)
    decreases 6 - n
  {
    if n < 6 {
      ScaleUp(v * 10, n + 1);
      assert v * 10 * Pow10(5 - n) == v * Pow10(6 - n);
    }
  }

  lemma {:induction false} ScaleDown(v: nat, n: nat)
    requires n >= 6
    ensures Scale(v, n) == v / Pow10(n - 6)
  {
    if n > 6 {
      ScaleDown(v / 10, n - 1);
      DivideTwice(v, 10, Pow10(n - 7));
    }
  }

  lemma DivideTwice(v: nat, a: nat, b: nat)
    requires a > 0 && b > 0
    ensures a * b > 0 && v / a / b == v / (a * b)
  {
    var w, s := Divided(v, a);
    var q, r := Divided(w, b);
    DivideNested(q, r, s, a, b);
  }

  lemma Divided(v: nat, a: nat) returns (q: nat, r: nat)
    requires a > 0
    ensures q == v / a && r < a && v == q * a + r
  {
    q, r := v / a, v % a;
  }

  lemma DivideNested(q: nat, r: nat, s: nat, a: nat, b: nat)
    requires r < b && s < a
    ensures a * b > 0 && ((q * b + r) * a + s) / (a * b) == q
  {
    var rest := r * a + s;
    BelowProduct(r, s, a, b);
    assert (q * b + r) * a + s == q * (a * b) + rest by { Regrouped(q, r, s, a, b); }
    DivideExact(q, a * b, rest);
  }

  lemma Regrouped(q: nat, r: nat, s: nat, a: nat, b: nat)
    ensures (q * b + r) * a + s == q * (a * b) + (r * a + s)
  {
    assert (q * b + r) * a == q * b * a + r * a;
    assert q * b * a == q * (a * b);
  }

  lemma BelowProduct(r: nat, s: nat, a: nat, b: nat)
    requires r < b && s < a
    ensures r * a + s < a * b
  {
    ScaleLe(r + 1, b, a);
    assert (r + 1) * a == r * a + a;
  }

  lemma {:induction false} TruncatesToSix(f: Bytes)
    requires AllDigits(f)
    ensures Scale(Value(f), |f|) == FirstSixDigits(f)
  {
    if |f| <= 6 {
      ScaleUp(Value(f), |f|);
    } else {
      ScaleDown(Value(f), |f|);
      ValueOfPrefix(f, 6);
    }
  }

  /** The microseconds read are the fraction cut after six digits exactly when
      the digits denote less than 2^32, or the first six of them are zero. */
  lemma FractionIsExactIff(f: Bytes)
    requires AllDigits(f)
    ensures FracMicros(Some(f)) == FirstSixDigits(f) <==> FractionFits(Some(f))
  {
    hide Value, FracMicros, FirstSixDigits;
    if Value(f) < U32 {
      ShortFraction(f);
    } else {
      LongFraction(f);
    }
  }

  lemma ShortFraction(f: Bytes)
    requires AllDigits(f) && Value(f) < U32
    ensures FracMicros(Some(f)) == FirstSixDigits(f)
  {
    hide FirstSixDigits, Scale, Value;
    TruncatesToSix(f);
    SmallMod(Value(f));
  }

  lemma SmallMod(v: nat)
    requires v < U32
    ensures v % U32 == v
  {
  }

  lemma LongFraction(f: Bytes)
    requires AllDigits(f) && Value(f) >= U32
    ensures |f| > 6
    ensures FracMicros(Some(f)) == FirstSixDigits(f) <==> Value(f[..6]) == 0
  {
    hide Value, Scale, Pow10;
    var v, n := Value(f), |f|;
    ValueBound(f);
    PowersOfTen();
    if n <= 9 {
      Pow10Monotone(n, 9);
    }
    var p := Pow10(n - 6);
    ScaleDown(v % U32, n);
    ValueOfPrefix(f, 6);
    assert FracMicros(Some(f)) == v % U32 / p && FirstSixDigits(f) == v / p;
    if v < p {
      SmallQuotient(v, p);
      SmallQuotient(v % U32, p);
    } else {
      WrapLosesQuotient(v, n);
    }
  }

  lemma PowersOfTen()
    ensures Pow10(6) == 1_000_000 && Pow10(9) == 1_000_000_000 && Pow10(10) == 10_000_000_000
  {
    assert Pow10(3) == 1000 by { assert Pow10(2) == 100; }
    assert Pow10(5) == 100000 by { assert Pow10(4) == 10000; }
    assert Pow10(7) == 10000000 by { assert Pow10(6) == 1000000; }
    assert Pow10(9) == 1000000000 by { assert Pow10(8) == 100000000; }
  }

  lemma SmallQuotient(a: nat, p: nat)
    requires a < p
    ensures a / p == 0
  {
    DivideExact(0, p, a);
  }

  lemma WrapLosesQuotient(v: nat, n: nat)
    requires v >= U32 && n >= 10 && v >= Pow10(n - 6)
    ensures v / Pow10(n - 6) != 0
    ensures v % U32 / Pow10(n - 6) != v / Pow10(n - 6)
  {
    var p := Pow10(n - 6);
    QuotientDrops(0, v, p);
    if n >= 16 {
      Pow10Monotone(10, n - 6);
      PowersOfTen();
      SmallQuotient(v % U32, p);
    } else {
      Pow10Monotone(n - 6, 9);
      PowersOfTen();
      QuotientDrops(v % U32, v, p);
    }
  }

  lemma QuotientDrops(w: nat, v: nat, p: nat)
    requires p > 0 && w + p <= v
    ensures w / p < v / p
  {
    var k, q := w / p, v / p;
    assert k * p <= w && v < (q + 1) * p;
    assert (k + 1) * p == k * p + p;
    if q < k + 1 {
      ScaleLe(q + 1, k + 1, p);
    }
  }

  // ----- the printer -----

  function PaddedDate(t: Date): Bytes {
    Padded(t.year, 4) + "-" + Padded(t.month, 2) + "-" + Padded(t.day, 2)
  }

  function PaddedTime(day: nat): Bytes {
    Padded(day / 3600, 2) + ":" + Padded(day % 3600 / 60, 2) + ":" + Padded(day % 60, 2)
  }

  /** The part up to the seconds, shared by both printers of the repository. */
  function PaddedClock(t: Date, day: nat): Bytes {
    PaddedDate(t) + "T" + PaddedTime(day)
  }

  /** A printed time: date, second of the day, millisecond. */
  function TimedText(t: Date, day: nat, millis: nat): Bytes {
    PaddedClock(t, day) + ("." + Padded(millis, 3) + "Z")
  }

  /** `format_ts` of a timed record. */
  function FormatTimed(ts: int): Bytes {
    var secs := ts / 1000000;
    TimedText(CivilFromDays(secs / 86400), secs % 86400, ts % 1000000 / 1000)
  }

  function FormatTs(ts: int): Bytes {
    if ts == TS_UNTIMED then "-" else FormatTimed(ts)
  }

  // First instants of the years 0000 and 10000, in microseconds.
  const YEAR_0 := -719528 * 86400 * 1000000
  const YEAR_10000 := 2932897 * 86400 * 1000000

  /** The clock fields of second `day` of date `t`. */
  function ClockAt(t: Date, day: nat): Clock
    requires Valid(t) && t.year >= 0
  {
    Clock(t.year, t.month, t.day, 'T', day / 3600, day % 3600 / 60, day % 60)
  }

  lemma YearBounds(z: int)
    ensures Valid(CivilFromDays(z)) && DayNumber(CivilFromDays(z)) == z
    ensures CivilFromDays(z).year >= 0 <==> z >= -719528
    ensures CivilFromDays(z).year >= 10000 <==> z >= 2932897
  {
    hide CivilFromDays;
    DaysAfterCivil(z);
    var t := CivilFromDays(z);
    DayNumberOrders(t, Date(0, 1, 1));
    DayNumberOrders(t, Date(10000, 1, 1));
    assert DayNumber(Date(0, 1, 1)) == -719528;
    assert DayNumber(Date(10000, 1, 1)) == 2932897;
  }

  /** Inside years 0000 to 9999 the printed clock is the fixed-width one. */
  lemma ClockIsFixedWidth(t: Date, day: nat)
    requires Valid(t) && 0 <= t.year < 10000 && day < 86400
    ensures ClockFits(ClockAt(t, day)) && PaddedClock(t, day) == ClockText(ClockAt(t, day))
  {
    var c := ClockAt(t, day);
    PaddedFits(c.year);
    PaddedFits(c.month);
    PaddedFits(c.day);
    PaddedFits(c.hour);
    PaddedFits(c.minute);
    PaddedFits(c.second);
    assert PaddedDate(t) == DateText(c);
    assert PaddedTime(day) == TimeText(c);
  }

  lemma TimedTextIsStamp(t: Date, day: nat, n: nat)
    requires Valid(t) && 0 <= t.year < 10000 && day < 86400 && n < 1000
    ensures ClockFits(ClockAt(t, day))
    ensures TimedText(t, day, n) == Print(Stamp(ClockAt(t, day), Some(Dec3(n)), Utc))
  {
    ClockIsFixedWidth(t, day);
    PaddedFits(n);
  }

  lemma ReadsMillisStamp(c: Clock, n: nat)
    requires ClockFits(c) && n < 1000
    ensures ParseRfc3339(Print(Stamp(c, Some(Dec3(n)), Utc))) == Some(Instant(c, 0, n * 1000))
  {
    var st := Stamp(c, Some(Dec3(n)), Utc);
    MillisRead(n);
    assert ReadStamp(Print(st)) == Some(st) by {
      hide *;
      ReadsEveryStamp(st);
    }
    hide Print, DaysFromCivil, ReadStamp, Dec3;
  }

  lemma MillisRead(n: nat)
    requires n < 1000
    ensures FracMicros(Some(Dec3(n))) == n * 1000
  {
    hide Dec3, Scale;
    ReadDec3(n);
    ScaleUp(n, 3);
    assert Pow10(3) == 1000 by { assert Pow10(2) == 100; }
  }

  lemma InstantOfClock(t: Date, day: nat, micros: int)
    requires Valid(t) && t.year >= 0
    ensures Instant(ClockAt(t, day), 0, micros) == (DayNumber(t) * 86400 + day) * 1000000 + micros
  {
    assert day % 3600 % 60 == day % 60;
  }

  lemma ReadsTimedText(t: Date, day: nat, n: nat)
    requires Valid(t) && 0 <= t.year < 10000 && day < 86400 && n < 1000
    ensures ParseRfc3339(TimedText(t, day, n)) == Some((DayNumber(t) * 86400 + day) * 1000000 + n * 1000)
  {
    hide *;
    TimedTextIsStamp(t, day, n);
    ReadsMillisStamp(ClockAt(t, day), n);
    InstantOfClock(t, day, n * 1000);
  }

  lemma SplitInstant(ts: int)
    ensures ts - ts % 1000
         == (ts / 1000000 / 86400 * 86400 + ts / 1000000 % 86400) * 1000000 + ts % 1000000 / 1000 * 1000
  {
    var secs, sub := ts / 1000000, ts % 1000000;
    assert secs / 86400 * 86400 + secs % 86400 == secs;
    assert ts == secs * 1000000 + sub;
    Mod1000(1000 * secs, sub);
  }

  lemma Mod1000(q: int, x: int)
    ensures (q * 1000 + x) % 1000 == x % 1000
    ensures x - x % 1000 == x / 1000 * 1000
  {
  }

  /** Reading a printed timestamp back gives it rounded down to the
      millisecond exactly for the years 0000 to 9999; outside them the text is
      rejected, because the year no longer has four digits. */
  lemma FormatThenParse(ts: int)
    ensures ParseRfc3339(FormatTs(ts))
         == if YEAR_0 <= ts < YEAR_10000 then Some(ts - ts % 1000) else None
    ensures FormatTs(I64_MIN) == "-"
  {
    if ts != TS_UNTIMED {
      TimedThenParse(ts);
    }
  }

  lemma TimedThenParse(ts: int)
    ensures ParseRfc3339(FormatTimed(ts))
         == if YEAR_0 <= ts < YEAR_10000 then Some(ts - ts % 1000) else None
  {
    hide *;
    var z, day, millis := InstantParts(ts);
    ReadsDay(z, day, millis);
  }

  lemma InstantParts(ts: int) returns (z: int, day: nat, millis: nat)
    ensures day < 86400 && millis < 1000
    ensures ts - ts % 1000 == (z * 86400 + day) * 1000000 + millis * 1000
    ensures FormatTimed(ts) == TimedText(CivilFromDays(z), day, millis)
    ensures YEAR_0 <= ts < YEAR_10000 <==> -719528 <= z < 2932897
  {
    hide TimedText, CivilFromDays;
    z, day, millis := ts / 1000000 / 86400, ts / 1000000 % 86400, ts % 1000000 / 1000;
    SplitInstant(ts);
  }

  lemma ReadsDay(z: int, day: nat, millis: nat)
    requires day < 86400 && millis < 1000
    ensures ParseRfc3339(TimedText(CivilFromDays(z), day, millis))
         == if -719528 <= z < 2932897 then Some((z * 86400 + day) * 1000000 + millis * 1000) else None
  {
    hide *;
    YearBounds(z);
    if -719528 <= z < 2932897 {
      ReadsTimedText(CivilFromDays(z), day, millis);
    } else {
      WideYearRejected(CivilFromDays(z), day, millis);
    }
  }

  lemma WideYearRejected(t: Date, day: nat, n: nat)
    requires !(0 <= t.year < 10000)
    ensures ParseRfc3339(TimedText(t, day, n)).None?
  {
    hide ParseRfc3339, TimedText;
    var s := TimedText(t, day, n);
    if t.year < 0 {
      NegativeYear(t, day, n);
    } else {
      LongYear(t, day, n);
    }
    NotAClock(s);
  }

  lemma NegativeYear(t: Date, day: nat, n: nat)
    requires t.year < 0
    ensures var s := TimedText(t, day, n); s != [] && s[0] == '-'
  {
  }

  lemma LongYear(t: Date, day: nat, n: nat)
    requires t.year >= 10000
    ensures var s := TimedText(t, day, n); |s| > 4 && s[4] != '-'
  {
    hide Digits;
    DigitsLength(t.year, 4);
    assert Pow10(4) == 10000 by { assert Pow10(2) == 100; }
    var s := TimedText(t, day, n);
    assert Padded(t.year, 4) == Digits(t.year) && Digits(t.year) <= s;
    assert s[4] == Digits(t.year)[4] && IsDigit(Digits(t.year)[4]);
  }

  /** A text without four digits and a dash at the front is rejected. */
  lemma NotAClock(s: Bytes)
    requires s != [] && (!IsDigit(s[0]) || (|s| > 4 && s[4] != '-'))
    ensures ParseRfc3339(s).None?
  {
    if |s| >= 20 {
      assert s[..19][..10][0..4][0] == s[0] && s[..19][..10][4] == s[4];
    }
  }

  // ----- stamps that name no time of the calendar -----

  predicate NamesATime(c: Clock) {
    Valid(Date(c.year, c.month, c.day)) && c.hour <= 23 && c.minute <= 59 && c.second <= 59
  }

  function SecondOf(c: Clock): nat { c.hour * 3600 + c.minute * 60 + c.second }

  lemma HoursAnd(h: nat, r: nat)
    requires r < 3600
    ensures (h * 3600 + r) / 3600 == h && (h * 3600 + r) % 3600 == r
  {
  }

  lemma MinutesAnd(m: nat, s: nat)
    requires s < 60
    ensures (m * 60 + s) / 60 == m && (m * 60 + s) % 60 == s
  {
  }

  lemma FieldsOfSecond(h: nat, m: nat, s: nat)
    requires m <= 59 && s <= 59
    ensures var d := h * 3600 + m * 60 + s;
            d / 3600 == h && d % 3600 / 60 == m && d % 60 == s
  {
    HoursAnd(h, m * 60 + s);
    MinutesAnd(m, s);
    MinutesAnd(h * 60 + m, s);
  }

  lemma ClockOfSecond(c: Clock)
    requires NamesATime(c) && c.sep == 'T'
    ensures SecondOf(c) < 86400 && ClockAt(Date(c.year, c.month, c.day), SecondOf(c)) == c
  {
    hide Valid;
    FieldsOfSecond(c.hour, c.minute, c.second);
  }

  /** Instants of a day and a second in the years 0 to 9999 are printed as such. */
  lemma FormatOfParts(z: int, day: nat, n: nat)
    requires -719528 <= z < 2932897 && day < 86400 && n < 1000
    ensures FormatTs((z * 86400 + day) * 1000000 + n * 1000) == TimedText(CivilFromDays(z), day, n)
  {
    hide TimedText, CivilFromDays;
    var secs := z * 86400 + day;
    var ts := secs * 1000000 + n * 1000;
    assert ts / 1000000 == secs && ts % 1000000 == n * 1000;
    assert secs / 86400 == z && secs % 86400 == day;
  }

  lemma TimeIsPrintedBack(c: Clock, n: nat)
    requires ClockFits(c) && c.sep == 'T' && n < 1000 && NamesATime(c)
    ensures FormatTs(Instant(c, 0, n * 1000)) == Print(Stamp(c, Some(Dec3(n)), Utc))
  {
    hide FormatTs, Instant, Print, TimedText, DayNumber, CivilFromDays, Dec3, Valid;
    var t := Date(c.year, c.month, c.day);
    ClockOfSecond(c);
    CivilAfterDays(t);
    YearBounds(DayNumber(t));
    InstantOfClock(t, SecondOf(c), n * 1000);
    FormatOfParts(DayNumber(t), SecondOf(c), n);
    TimedTextIsStamp(t, SecondOf(c), n);
  }

  lemma PrintedStampNamesATime(ts: int, c: Clock, n: nat)
    requires ClockFits(c) && n < 1000 && FormatTs(ts) == Print(Stamp(c, Some(Dec3(n)), Utc))
    ensures NamesATime(c)
  {
    hide FormatTimed, ParseRfc3339, ReadStamp, TimedText, CivilFromDays, DayNumber, Dec3, Valid;
    var st := Stamp(c, Some(Dec3(n)), Utc);
    ReadsEveryStamp(st);
    ReadsMillisStamp(c, n);
    var z, day, millis := InstantParts(ts);
    var t := CivilFromDays(z);
    YearBounds(z);
    if 0 <= t.year < 10000 {
      TimedTextIsStamp(t, day, millis);
      ReadsEveryStamp(Stamp(ClockAt(t, day), Some(Dec3(millis)), Utc));
    } else {
      WideYearRejected(t, day, millis);
    }
  }

  /** The reader takes any two digits for a month, a day, an hour, a minute and a
      second. What it read is printed as the same text again exactly when the
      stamp names a time of the calendar. */
  lemma PrintedBackIff(c: Clock, n: nat)
    requires ClockFits(c) && c.sep == 'T' && n < 1000
    ensures var s := Print(Stamp(c, Some(Dec3(n)), Utc));
            ParseRfc3339(s).Some? && (FormatTs(ParseRfc3339(s).value) == s <==> NamesATime(c))
  {
    hide FormatTs, Instant, Print, ParseRfc3339, NamesATime, Dec3;
    ReadsMillisStamp(c, n);
    if NamesATime(c) {
      TimeIsPrintedBack(c, n);
    } else if FormatTs(Instant(c, 0, n * 1000)) == Print(Stamp(c, Some(Dec3(n)), Utc)) {
      PrintedStampNamesATime(Instant(c, 0, n * 1000), c, n);
    }
  }

  // ----- local times with an offset -----

  /** An instant read with an offset is that much earlier or later. */
  lemma InstantShifts(c: Clock, offset: int, micros: int)
    ensures Instant(c, offset, micros) == Instant(c, 0, micros) - offset * 1000000
  {
    hide DaysFromCivil;
    ShiftScaled(DaysFromCivil(c.year, c.month, c.day) * 86400 + c.hour * 3600 + c.minute * 60 + c.second, offset);
  }

  lemma ShiftScaled(secs: int, offset: int)
    ensures (secs - offset) * 1000000 == secs * 1000000 - offset * 1000000
  {
  }

  /** Which fields the printed instant shows. */
  lemma ShownFields(ts: int) returns (c: Clock, n: nat)
    requires YEAR_0 <= ts < YEAR_10000
    ensures ClockFits(c) && c.sep == 'T' && NamesATime(c) && n < 1000
    ensures FormatTs(ts) == Print(Stamp(c, Some(Dec3(n)), Utc))
    ensures Instant(c, 0, n * 1000) == ts - ts % 1000
  {
    hide FormatTimed, TimedText, CivilFromDays, DayNumber, Dec3, Valid, Instant, NamesATime;
    var z, day, millis := InstantParts(ts);
    var t := CivilFromDays(z);
    YearBounds(z);
    TimedTextIsStamp(t, day, millis);
    c, n := ClockAt(t, day), millis;
    InstantOfClock(t, day, millis * 1000);
    PrintedStampNamesATime(ts, c, n);
  }

  lemma StampSlices(c: Clock, n: nat)
    requires ClockFits(c) && c.sep == 'T' && n < 1000
    ensures var s := Print(Stamp(c, Some(Dec3(n)), Utc));
            |s| == 24
            && s[0..4] == Dec4(c.year) && s[4] == '-' && s[5..7] == Dec2(c.month) && s[7] == '-'
            && s[8..10] == Dec2(c.day) && s[10] == 'T' && s[11..13] == Dec2(c.hour) && s[13] == ':'
            && s[14..16] == Dec2(c.minute) && s[16] == ':' && s[17..19] == Dec2(c.second)
            && s[19] == '.' && s[20..23] == Dec3(n) && s[23] == 'Z'
  {
    hide Dec2, Dec3, Dec4, DateText, TimeText;
    var d, t, m := DateText(c), TimeText(c), Dec3(n);
    DateParts(c);
    TimeParts(c);
    assert Print(Stamp(c, Some(m), Utc)) == (d + ['T'] + t) + ("." + m + "Z");
    SliceParts(d, t, m);
  }

  lemma DateParts(c: Clock)
    requires ClockFits(c)
    ensures var d := DateText(c);
            d[0..4] == Dec4(c.year) && d[4] == '-' && d[5..7] == Dec2(c.month) && d[7] == '-' && d[8..10] == Dec2(c.day)
  {
    hide Dec2, Dec4;
    DateSlices(Dec4(c.year), Dec2(c.month), Dec2(c.day));
  }

  lemma TimeParts(c: Clock)
    requires ClockFits(c)
    ensures var t := TimeText(c);
            t[0..2] == Dec2(c.hour) && t[2] == ':' && t[3..5] == Dec2(c.minute) && t[5] == ':'
            && t[6..8] == Dec2(c.second)
  {
    hide Dec2;
    TimeSlices(Dec2(c.hour), Dec2(c.minute), Dec2(c.second));
  }

  lemma SliceParts(d: Bytes, t: Bytes, m: Bytes)
    requires |d| == 10 && |t| == 8 && |m| == 3
    ensures var s := (d + ['T'] + t) + ("." + m + "Z");
            |s| == 24 && s[0..4] == d[0..4] && s[4] == d[4] && s[5..7] == d[5..7] && s[7] == d[7]
            && s[8..10] == d[8..10] && s[10] == 'T' && s[11..13] == t[0..2] && s[13] == t[2]
            && s[14..16] == t[3..5] && s[16] == t[5] && s[17..19] == t[6..8]
            && s[19] == '.' && s[20..23] == m && s[23] == 'Z'
  {
  }

  /** A printed instant, position by position: a date of the calendar whose day
      number, with the hour, minute, second and millisecond of the day, is that
      instant cut to the millisecond. */
  lemma FormatShows(ts: int) returns (s: Bytes)
    requires YEAR_0 <= ts < YEAR_10000
    ensures |s| == 24
            && AllDigits(s[0..4]) && AllDigits(s[5..7]) && AllDigits(s[8..10]) && AllDigits(s[11..13])
            && AllDigits(s[14..16]) && AllDigits(s[17..19]) && AllDigits(s[20..23])
            && s[4] == s[7] == '-' && s[10] == 'T' && s[13] == s[16] == ':' && s[19] == '.' && s[23] == 'Z'
            && var t := Date(Value(s[0..4]), Value(s[5..7]), Value(s[8..10]));
               var hour, minute, second := Value(s[11..13]), Value(s[14..16]), Value(s[17..19]);
               Valid(t) && hour <= 23 && minute <= 59 && second <= 59
               && (((DayNumber(t) * 24 + hour) * 60 + minute) * 60 + second) * 1000 + Value(s[20..23]) == ts / 1000
    ensures s == FormatTs(ts)
  {
    hide *;
    var c, n := ShownFields(ts);
    s := FormatTs(ts);
    StampSlices(c, n);
    FieldValues(s, c, n);
    ClockInstant(c, n);
    Cut1000(ts, (((DayNumber(Date(c.year, c.month, c.day)) * 24 + c.hour) * 60 + c.minute) * 60 + c.second) * 1000 + n);
  }

  lemma FieldValues(s: Bytes, c: Clock, n: nat)
    requires ClockFits(c) && n < 1000 && |s| == 24
    requires s[0..4] == Dec4(c.year) && s[5..7] == Dec2(c.month) && s[8..10] == Dec2(c.day)
    requires s[11..13] == Dec2(c.hour) && s[14..16] == Dec2(c.minute) && s[17..19] == Dec2(c.second)
    requires s[20..23] == Dec3(n)
    ensures Value(s[0..4]) == c.year && Value(s[5..7]) == c.month && Value(s[8..10]) == c.day
    ensures Value(s[11..13]) == c.hour && Value(s[14..16]) == c.minute && Value(s[17..19]) == c.second
    ensures Value(s[20..23]) == n
  {
    hide Dec2, Dec3, Dec4, Value, AllDigits;
    ReadDec4(c.year);
    ReadDec2(c.month);
    ReadDec2(c.day);
    ReadDec2(c.hour);
    ReadDec2(c.minute);
    ReadDec2(c.second);
    ReadDec3(n);
  }

  lemma Cut1000(ts: int, millis: int)
    requires ts - ts % 1000 == millis * 1000
    ensures millis == ts / 1000
  {
  }

  lemma ClockInstant(c: Clock, n: nat)
    requires NamesATime(c)
    ensures Valid(Date(c.year, c.month, c.day)) && c.hour <= 23 && c.minute <= 59 && c.second <= 59
    ensures var hours := DayNumber(Date(c.year, c.month, c.day)) * 24 + c.hour;
            Instant(c, 0, n * 1000) == (((hours * 60 + c.minute) * 60 + c.second) * 1000 + n) * 1000
  {
    hide DaysFromCivil, Valid;
  }

  lemma ShownText(c: Clock, n: nat, sep: char)
    requires ClockFits(c) && n < 1000 && (sep == 'T' || sep == ' ')
    ensures var s := Print(Stamp(c, Some(Dec3(n)), Utc));
            |s| == 24 && s[..23][10 := sep] == ClockText(c.(sep := sep)) + ("." + Dec3(n))
  {
    hide ClockText, Dec3;
    ClockTextSep(c, sep);
    CutAndMark(ClockText(c), "." + Dec3(n), sep);
  }

  lemma ClockTextSep(c: Clock, sep: char)
    requires ClockFits(c) && (sep == 'T' || sep == ' ')
    ensures ClockText(c.(sep := sep)) == ClockText(c)[10 := sep]
  {
    hide Dec2, Dec4;
    assert DateText(c.(sep := sep)) == DateText(c) && TimeText(c.(sep := sep)) == TimeText(c);
  }

  lemma CutAndMark(a: Bytes, b: Bytes, sep: char)
    requires |a| == 19 && |b| == 4
    ensures (a + (b + "Z"))[..23][10 := sep] == a[10 := sep] + b
  {
  }

  lemma FormatLength(ts: int)
    requires YEAR_0 <= ts < YEAR_10000
    ensures |FormatTs(ts)| == 24
  {
    hide FormatTs, Instant;
    var c, n := ShownFields(ts);
    ShownText(c, n, 'T');
  }

  /** The text that shows `local` to the millisecond, without a zone. */
  function LocalText(local: int, sep: char): (s: Bytes)
    requires YEAR_0 <= local < YEAR_10000 && (sep == 'T' || sep == ' ')
    ensures |s| == 23
  {
    FormatLength(local);
    FormatTs(local)[..23][10 := sep]
  }

  /** A local time ahead of UTC by an offset east of Greenwich, or behind it by one
      west of it, names the instant it was taken from, to the millisecond. */
  lemma ReadsLocalTime(ts: int, sep: char, east: bool, h: nat, m: nat)
    requires (sep == 'T' || sep == ' ') && h < 100 && m < 100
    requires var ahead := (h * 3600 + m * 60) * 1000000;
             YEAR_0 <= (if east then ts + ahead else ts - ahead) < YEAR_10000
    ensures var ahead := (h * 3600 + m * 60) * 1000000;
            var zone := (if east then "+" else "-") + Dec2(h) + ":" + Dec2(m);
            ParseRfc3339(LocalText(if east then ts + ahead else ts - ahead, sep) + zone) == Some(ts - ts % 1000)
  {
    hide Instant, ReadStamp, FormatTs, Dec3, Dec2, FracMicros, ClockText;
    var ahead := (h * 3600 + m * 60) * 1000000;
    var local := if east then ts + ahead else ts - ahead;
    var c, n := ShownFields(local);
    ShownText(c, n, sep);
    var st := Stamp(c.(sep := sep), Some(Dec3(n)), Offset(east, h, m));
    assert LocalText(local, sep) + ZoneText(st.zone) == Print(st);
    ReadsEveryStamp(st);
    MillisRead(n);
    InstantAnySep(c, sep, n * 1000);
    InstantShifts(st.clock, OffsetSeconds(st.zone), n * 1000);
    SameMillis(ts, h * 3600 + m * 60, east);
  }

  lemma InstantAnySep(c: Clock, sep: char, micros: int)
    ensures Instant(c.(sep := sep), 0, micros) == Instant(c, 0, micros)
  {
    hide DaysFromCivil;
  }

  /** Hours, minutes and seconds beyond their range run over into the days that
      follow, and so do days beyond the end of a month. */
  lemma FieldsRunOver(st: Stamp)
    requires Fits(st) && 1 <= st.clock.month <= 12
    ensures var c := st.clock;
            var days := DayNumber(Date(c.year, c.month, 1)) + c.day - 1;
            var ahead := match st.zone
                         case Utc => 0
                         case Offset(east, h, m) => if east then h * 3600 + m * 60 else -(h * 3600 + m * 60);
            ParseRfc3339(Print(st))
            == Some((days * 86400 + c.hour * 3600 + c.minute * 60 + c.second - ahead) * 1000000 + FracMicros(st.frac))
  {
    hide Print, ReadStamp, FracMicros;
    ReadsEveryStamp(st);
    DaysOfMonth(st.clock.year, st.clock.month, st.clock.day);
  }

  lemma DaysOfMonth(y: int, m: int, d: int)
    ensures DaysFromCivil(y, m, d) == DaysFromCivil(y, m, 1) + d - 1
  {
  }

  /** Whole seconds do not touch the millisecond. */
  lemma SameMillis(ts: int, secs: int, east: bool)
    ensures var local := if east then ts + secs * 1000000 else ts - secs * 1000000;
            local % 1000 == ts % 1000
  {
    var k := if east then secs * 1000 else -(secs * 1000);
    ModShift(ts, k);
  }

  lemma ModShift(x: int, k: int)
    ensures (x + k * 1000) % 1000 == x % 1000
  {
    var q, r := x / 1000, x % 1000;
    assert x + k * 1000 == (q + k) * 1000 + r;
  }

  // ----- string order is time order -----

  predicate TimeEarlier(a: Clock, b: Clock) {
    a.hour < b.hour
    || (a.hour == b.hour && (a.minute < b.minute || (a.minute == b.minute && a.second < b.second)))
  }

  /** Fixed-width dates compare as strings exactly as the calendar orders them. */
  lemma LexOfDates(a: Clock, b: Clock)
    requires ClockFits(a) && ClockFits(b)
    ensures LexLess(DateText(a), DateText(b))
        <==> Earlier(Date(a.year, a.month, a.day), Date(b.year, b.month, b.day))
    ensures DateText(a) == DateText(b) <==> a.year == b.year && a.month == b.month && a.day == b.day
  {
    hide LexLess, Dec4, Dec2;
    LexDec4(a.year, b.year);
    LexDec2(a.month, b.month);
    LexDec2(a.day, b.day);
    var u, v := Dec4(a.year) + "-" + Dec2(a.month), Dec4(b.year) + "-" + Dec2(b.month);
    LexSeparated(Dec4(a.year), '-', Dec2(a.month), Dec4(b.year), Dec2(b.month));
    LexSeparated(u, '-', Dec2(a.day), v, Dec2(b.day));
  }

  lemma LexOfTimes(a: Clock, b: Clock)
    requires ClockFits(a) && ClockFits(b)
    ensures LexLess(TimeText(a), TimeText(b)) <==> TimeEarlier(a, b)
    ensures TimeText(a) == TimeText(b) <==> a.hour == b.hour && a.minute == b.minute && a.second == b.second
  {
    hide LexLess, Dec2;
    LexDec2(a.hour, b.hour);
    LexDec2(a.minute, b.minute);
    LexDec2(a.second, b.second);
    var u, v := Dec2(a.hour) + ":" + Dec2(a.minute), Dec2(b.hour) + ":" + Dec2(b.minute);
    LexSeparated(Dec2(a.hour), ':', Dec2(a.minute), Dec2(b.hour), Dec2(b.minute));
    LexSeparated(u, ':', Dec2(a.second), v, Dec2(b.second));
  }

  /** The hour, minute and second fields order as the second of the day. */
  lemma TimeFieldsOrder(a: Clock, d: nat, b: Clock, e: nat)
    requires a.hour == d / 3600 && a.minute == d % 3600 / 60 && a.second == d % 60
    requires b.hour == e / 3600 && b.minute == e % 3600 / 60 && b.second == e % 60
    ensures TimeEarlier(a, b) <==> d < e
    ensures a.hour == b.hour && a.minute == b.minute && a.second == b.second <==> d == e
  {
    ClockParts(d);
    ClockParts(e);
    TimeFieldsCompare(a, b);
  }

  lemma ClockParts(d: nat)
    ensures d == d / 3600 * 3600 + d % 3600 / 60 * 60 + d % 60
    ensures d % 3600 / 60 < 60
  {
    assert d % 3600 % 60 == d % 60;
  }

  lemma TimeFieldsCompare(a: Clock, b: Clock)
    requires a.minute < 60 && a.second < 60 && b.minute < 60 && b.second < 60
    ensures TimeEarlier(a, b)
        <==> a.hour * 3600 + a.minute * 60 + a.second < b.hour * 3600 + b.minute * 60 + b.second
  {
  }

  /** Printed clocks of valid dates compare as strings exactly as their
      instants do. */
  lemma LexOfClocks(s: Date, d: nat, t: Date, e: nat)
    requires Valid(s) && 0 <= s.year < 10000 && d < 86400
    requires Valid(t) && 0 <= t.year < 10000 && e < 86400
    ensures |PaddedClock(s, d)| == |PaddedClock(t, e)|
    ensures LexLess(PaddedClock(s, d), PaddedClock(t, e))
        <==> DayNumber(s) * 86400 + d < DayNumber(t) * 86400 + e
    ensures PaddedClock(s, d) == PaddedClock(t, e)
        <==> DayNumber(s) * 86400 + d == DayNumber(t) * 86400 + e
  {
    hide LexLess, DateText, TimeText, PaddedClock, DayNumber, Valid, Earlier, TimeEarlier;
    ClockIsFixedWidth(s, d);
    ClockIsFixedWidth(t, e);
    var a, b := ClockAt(s, d), ClockAt(t, e);
    LexOfDates(a, b);
    LexOfTimes(a, b);
    LexSeparated(DateText(a), 'T', TimeText(a), DateText(b), TimeText(b));
    TimeFieldsOrder(a, d, b, e);
    DayNumberOrders(s, t);
    DayNumberOrders(t, s);
    SameDayNumber(s, t);
  }

  lemma SameDayNumber(s: Date, t: Date)
    requires Valid(s) && Valid(t)
    ensures DayNumber(s) == DayNumber(t) <==> s == t
  {
    hide DayNumber, CivilFromDays;
    CivilAfterDays(s);
    CivilAfterDays(t);
  }

  lemma LexOfTimedTexts(s: Date, d: nat, m: nat, t: Date, e: nat, n: nat)
    requires Valid(s) && 0 <= s.year < 10000 && d < 86400 && m < 1000
    requires Valid(t) && 0 <= t.year < 10000 && e < 86400 && n < 1000
    ensures LexLess(TimedText(s, d, m), TimedText(t, e, n))
        <==> (DayNumber(s) * 86400 + d) * 1000 + m < (DayNumber(t) * 86400 + e) * 1000 + n
  {
    hide LexLess, PaddedClock, DayNumber, Valid, Padded, Dec3;
    LexOfClocks(s, d, t, e);
    PaddedFits(m);
    PaddedFits(n);
    LexDec3(m, n);
    LexSeparated(Dec3(m), 'Z', [], Dec3(n), []);
    LexSeparated(PaddedClock(s, d), '.', Dec3(m) + "Z", PaddedClock(t, e), Dec3(n) + "Z");
    assert Dec3(m) + ['Z'] + [] == Dec3(m) + "Z" && Dec3(n) + ['Z'] + [] == Dec3(n) + "Z";
    assert PaddedClock(s, d) + ("." + Dec3(m) + "Z") == PaddedClock(s, d) + ['.'] + (Dec3(m) + "Z");
    assert PaddedClock(t, e) + ("." + Dec3(n) + "Z") == PaddedClock(t, e) + ['.'] + (Dec3(n) + "Z");
    assert !LexLess([], []) by { LexEmpty(); }
  }

  lemma LexEmpty()
    ensures !LexLess([], [])
  {
  }

  /** Section 5.1 of RFC 3339: printed timestamps compare as strings exactly as
      their times do, to the printed millisecond. */
  lemma FormatKeepsOrder(ts: int, ts': int)
    requires YEAR_0 <= ts < YEAR_10000 && YEAR_0 <= ts' < YEAR_10000
    ensures LexLess(FormatTs(ts), FormatTs(ts')) <==> ts / 1000 < ts' / 1000
  {
    hide LexLess, FormatTimed, TimedText, CivilFromDays, DayNumber, Valid;
    var z, d, m := InstantParts(ts);
    var z', d', m' := InstantParts(ts');
    YearBounds(z);
    YearBounds(z');
    LexOfTimedTexts(CivilFromDays(z), d, m, CivilFromDays(z'), d', m');
    ThousandsOrder((z * 86400 + d) * 1000 + m, ts);
    ThousandsOrder((z' * 86400 + d') * 1000 + m', ts');
  }

  lemma ThousandsOrder(n: int, ts: int)
    requires ts - ts % 1000 == n * 1000
    ensures ts / 1000 == n
  {
  }

  // ----- second precision, as the bookmark sidecar prints it -----

  /** `format_unix_seconds_utc`: the same date algorithm without a fraction. */
  function FormatUnixSeconds(secs: int): Bytes {
    PaddedClock(CivilFromDays(secs / 86400), secs % 86400) + "Z"
  }

  lemma UnixSecondsKeepOrder(s: int, t: int)
    requires YEAR_0 <= s * 1000000 < YEAR_10000 && YEAR_0 <= t * 1000000 < YEAR_10000
    ensures LexLess(FormatUnixSeconds(s), FormatUnixSeconds(t)) <==> s < t
    ensures FormatUnixSeconds(s) == FormatUnixSeconds(t) <==> s == t
  {
    hide LexLess, PaddedClock, CivilFromDays, DayNumber, Valid;
    var z, z' := s / 86400, t / 86400;
    YearBounds(z);
    YearBounds(z');
    LexOfClocks(CivilFromDays(z), s % 86400, CivilFromDays(z'), t % 86400);
    LexConcat(PaddedClock(CivilFromDays(z), s % 86400), "Z", PaddedClock(CivilFromDays(z'), t % 86400), "Z");
    assert !LexLess("Z", "Z") by { LexSame("Z"); }
  }

  /** Such a stamp shows what the one with a fraction shows up to the second, and is
      read back as that second. */
  lemma UnixSecondsReadBack(secs: int)
    requires YEAR_0 <= secs * 1000000 < YEAR_10000
    ensures |FormatTs(secs * 1000000)| == 24
            && FormatUnixSeconds(secs) == FormatTs(secs * 1000000)[..19] + "Z"
    ensures ParseRfc3339(FormatUnixSeconds(secs)) == Some(secs * 1000000)
  {
    hide FormatTs, PaddedClock, CivilFromDays, DayNumber, ClockText, Dec3, Instant, Valid, ReadStamp;
    var z, day := secs / 86400, secs % 86400;
    YearBounds(z);
    var t := CivilFromDays(z);
    var c := ClockAt(t, day);
    ClockIsFixedWidth(t, day);
    TimedTextIsStamp(t, day, 0);
    WholeSecond(secs);
    InstantOfClock(t, day, 0);
    var st := Stamp(c, None, Utc);
    ReadsEveryStamp(st);
    assert Print(st) == ClockText(c) + "Z";
  }

  lemma WholeSecond(secs: int)
    ensures secs * 1000000 / 1000000 == secs && secs * 1000000 % 1000000 == 0
    ensures secs * 1000000 != TS_UNTIMED
    ensures FormatTs(secs * 1000000) == TimedText(CivilFromDays(secs / 86400), secs % 86400, 0)
  {
    hide TimedText, CivilFromDays;
  }

  lemma {:induction false} LexSame(s: Bytes)
    ensures !LexLess(s, s)
  {
    if s != [] {
      LexSame(s[1..]);
    }
  }

  lemma FirstOfFiveDigits()
    ensures Padded(9999, 4) != [] && Padded(9999, 4)[0] == '9'
    ensures Padded(10000, 4) != [] && Padded(10000, 4)[0] == '1'
  {
    assert Digits(999) == Digits(99) + "9" && Digits(99) == "99";
    assert Digits(9999) == Digits(999) + "9";
    assert Digits(100) == Digits(10) + "0" && Digits(10) == "10";
    assert Digits(10000) == Digits(1000) + "0" && Digits(1000) == Digits(100) + "0";
  }

  lemma LaterSortsFirst(s: nat, t: nat)
    requires s / 86400 == 2932896 && t / 86400 == 2932897
    ensures LexLess(FormatUnixSeconds(t), FormatUnixSeconds(s))
            && LexLess(FormatTs(t * 1000000), FormatTs(s * 1000000))
  {
    hide *;
    LastAndFirstDay();
    FirstOfFiveDigits();
    StartsWithYear(s);
    StartsWithYear(t);
    FirstDecides(FormatUnixSeconds(t), FormatUnixSeconds(s));
    FirstDecides(FormatTs(t * 1000000), FormatTs(s * 1000000));
  }

  /** Behind the year 9999 the order is lost: all stamps of the first day of the
      year 10000 sort before all of the day that precedes it. */
  lemma YearTenThousandWitness(s: nat, t: nat)
    requires YEAR_10000 / 1000000 - 86400 <= s < YEAR_10000 / 1000000 <= t < YEAR_10000 / 1000000 + 86400
    ensures LexLess(FormatUnixSeconds(t), FormatUnixSeconds(s))
            && LexLess(FormatTs(t * 1000000), FormatTs(s * 1000000))
  {
    hide LexLess, FormatUnixSeconds, FormatTs;
    LaterSortsFirst(s, t);
  }

  lemma FirstDecides(a: Bytes, b: Bytes)
    requires a != [] && b != [] && a[0] < b[0]
    ensures LexLess(a, b)
  {
  }

  lemma StartsWithYear(secs: nat)
    ensures var year := Padded(CivilFromDays(secs / 86400).year, 4);
            year != [] ==> FormatUnixSeconds(secs) != [] && FormatUnixSeconds(secs)[0] == year[0]
                           && FormatTs(secs * 1000000) != [] && FormatTs(secs * 1000000)[0] == year[0]
  {
    hide CivilFromDays, Padded;
    assert secs * 1000000 / 1000000 == secs;
  }

  lemma LastAndFirstDay()
    ensures CivilFromDays(2932896) == Date(9999, 12, 31) && CivilFromDays(2932897) == Date(10000, 1, 1)
  {
    hide CivilFromDays;
    CivilAfterDays(Date(9999, 12, 31));
    CivilAfterDays(Date(10000, 1, 1));
  }
}
