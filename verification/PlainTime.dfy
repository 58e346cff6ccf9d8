/** The second timestamp reader, of the plain-text parser, and the one of the
    logback parser, against the RFC 3339 reader. */
module PlainTime {
  import opened Common
  import opened Decimal
  import opened Rfc3339

  // ----- `leading_ts` -----

  predicate InRange(c: Clock) {
    1 <= c.month <= 12 && 1 <= c.day <= 31 && c.hour <= 23 && c.minute <= 59 && c.second <= 60
  }

  /** The nineteen fixed columns, with `-` or `/` between the date fields. */
  predicate ClockColumns(s: Bytes)
    requires |s| == 19
  {
    AllDigits(s[0..4]) && (s[4] == '-' || s[4] == '/') && s[7] == s[4]
    && AllDigits(s[5..7]) && AllDigits(s[8..10]) && (s[10] == 'T' || s[10] == ' ')
    && AllDigits(s[11..13]) && s[13] == ':' && AllDigits(s[14..16]) && s[16] == ':' && AllDigits(s[17..19])
  }

  function LeadingClock(s: Bytes): Option<Clock>
    requires |s| == 19
  {
    if !ClockColumns(s) then None else
    var c := Clock(Value(s[0..4]), Value(s[5..7]), Value(s[8..10]), s[10],
                   Value(s[11..13]), Value(s[14..16]), Value(s[17..19]));
    if InRange(c) then Some(c) else None
  }

  /** Microseconds of a fraction and what follows it; a mark without digits is
      not consumed. */
  function LeadingFraction(r: Bytes): (p: (int, Bytes))
    ensures |p.1| <= |r|
  {
    if r != [] && (r[0] == '.' || r[0] == ',') && DigitRun(r[1..]) > 0 then
      var n := DigitRun(r[1..]);
      (FirstSixDigits(r[1..][..n]), r[1..][n..])
    else (0, r)
  }

  function ZoneSeconds(sign: int, hours: int, minutes: int): int { sign * (hours * 3600 + minutes * 60) }

  /** Seconds of a zone and what follows it; no zone means UTC. */
  function LeadingZone(r: Bytes): (p: (int, Bytes))
    ensures |p.1| <= |r|
  {
    if r != [] && r[0] == 'Z' then (0, r[1..])
    else if |r| >= 5 && (r[0] == '+' || r[0] == '-') then
      var sign := if r[0] == '+' then 1 else -1;
      if |r| >= 6 && r[3] == ':' && AllDigits(r[1..3]) && AllDigits(r[4..6]) then
        (ZoneSeconds(sign, Value(r[1..3]), Value(r[4..6])), r[6..])
      else if AllDigits(r[1..5]) then
        AllDigitsPart(r[1..5]);
        (ZoneSeconds(sign, Value(r[1..5][..2]), Value(r[1..5][2..])), r[5..])
      else (0, r)
    else (0, r)
  }

  lemma AllDigitsPart(s: Bytes)
    requires AllDigits(s) && |s| == 4
    ensures AllDigits(s[..2]) && AllDigits(s[2..])
  {
  }

  /** `leading_ts`: bytes consumed and microseconds. */
  function LeadingTs(s: Bytes): Option<(nat, int)> {
    if |s| < 19 then None else
    var c :- LeadingClock(s[..19]);
    var (micros, r) := LeadingFraction(s[19..]);
    var (offset, rest) := LeadingZone(r);
    Some((|s| - |rest|, Instant(c, offset, micros)))
  }

  /** `num`: a fold over bytes already known to be digits. */
  method Num(b: Bytes) returns (n: nat)
    requires AllDigits(b)
    ensures n == Value(b)
  {
    n := 0;
    for i := 0 to |b|
      invariant n == Value(b[..i])
    {
      assert b[..i + 1][..i] == b[..i];
      n := n * 10 + DigitValue(b[i]);
    }
    assert b[..|b|] == b;
  }

  method LeadingClockFields(s: Bytes) returns (r: Option<Clock>)
    requires |s| == 19
    ensures r == LeadingClock(s)
  {
    if !ClockColumns(s) { return None; }
    var year := Num(s[0..4]);
    var month := Num(s[5..7]);
    var day := Num(s[8..10]);
    var hour := Num(s[11..13]);
    var minute := Num(s[14..16]);
    var second := Num(s[17..19]);
    var c := Clock(year, month, day, s[10], hour, minute, second);
    if !InRange(c) { return None; }
    r := Some(c);
  }

  /** The digit loop: the first position from `start` on that is no digit. */
  method DigitsEnd(s: Bytes, start: nat) returns (j: nat)
    requires start <= |s|
    ensures start <= j <= |s| && j == start + DigitRun(s[start..])
  {
    j := start;
    while j < |s| && IsDigit(s[j])
      invariant start <= j <= |s|
      invariant DigitRun(s[start..]) == j - start + DigitRun(s[j..])
    {
      assert s[j..][1..] == s[j + 1..];
      j := j + 1;
    }
  }

  /** Microseconds of the digits `s[start..j]`, of which only six count. */
  method SixDigits(s: Bytes, start: nat, j: nat) returns (micros: nat)
    requires start < j <= |s| && AllDigits(s[start..j])
    ensures micros == FirstSixDigits(s[start..j])
  {
    var cut := if j < start + 6 then j else start + 6;
    assert s[start..cut] == s[start..j][..cut - start];
    var n := Num(s[start..cut]);
    micros := n * Pow10(6 - (cut - start));
  }

  method LeadingFractionLoop(s: Bytes) returns (end: nat, micros: int)
    requires |s| >= 19
    ensures 19 <= end <= |s| && (micros, s[end..]) == LeadingFraction(s[19..])
  {
    hide FirstSixDigits;
    end, micros := 19, 0;
    if end < |s| && (s[end] == '.' || s[end] == ',') {
      var start := end + 1;
      var j := DigitsEnd(s, start);
      assert s[19..][1..] == s[start..];
      if j > start {
        assert s[start..j] == s[start..][..j - start] && s[j..] == s[start..][j - start..];
        micros := SixDigits(s, start, j);
        end := j;
      }
    }
  }

  lemma ZoneSlices(s: Bytes, i: nat)
    requires i + 5 <= |s|
    ensures var z := s[i..];
            z[0] == s[i] && z[3] == s[i + 3] && z[1..3] == s[i + 1..i + 3] && z[1..5] == s[i + 1..i + 5]
            && z[5..] == s[i + 5..] && (|z| >= 6 ==> z[4..6] == s[i + 4..i + 6] && z[6..] == s[i + 6..])
  {
  }

  lemma ZoneStart(s: Bytes, i: nat)
    requires i <= |s|
    ensures |s[i..]| == |s| - i && (i < |s| ==> s[i..][0] == s[i] && s[i..][1..] == s[i + 1..])
  {
  }

  /** The zone part in positions of the whole text. */
  lemma LeadingZoneAt(s: Bytes, i: nat)
    requires i <= |s|
    ensures LeadingZone(s[i..])
         == if i < |s| && s[i] == 'Z' then (0, s[i + 1..])
            else if i + 5 <= |s| && (s[i] == '+' || s[i] == '-') then
              var sign := if s[i] == '+' then 1 else -1;
              if i + 6 <= |s| && s[i + 3] == ':' && AllDigits(s[i + 1..i + 3]) && AllDigits(s[i + 4..i + 6]) then
                (ZoneSeconds(sign, Value(s[i + 1..i + 3]), Value(s[i + 4..i + 6])), s[i + 6..])
              else if AllDigits(s[i + 1..i + 5]) then
                AllDigitsPart(s[i + 1..i + 5]);
                (ZoneSeconds(sign, Value(s[i + 1..i + 5][..2]), Value(s[i + 1..i + 5][2..])), s[i + 5..])
              else (0, s[i..])
            else (0, s[i..])
  {
    hide Value, ZoneSeconds, AllDigits;
    ZoneStart(s, i);
    if i + 5 <= |s| {
      ZoneSlices(s, i);
    }
  }

  lemma Halves(s: Bytes, i: nat)
    requires i + 5 <= |s|
    ensures s[i + 1..i + 5][..2] == s[i + 1..i + 3] && s[i + 1..i + 5][2..] == s[i + 3..i + 5]
  {
  }

  /** The zone part of the reader, from `start`. */
  method LeadingZoneFields(s: Bytes, start: nat) returns (end: nat, offset: int)
    requires start <= |s|
    ensures start <= end <= |s| && (offset, s[end..]) == LeadingZone(s[start..])
  {
    hide Value, ZoneSeconds, LeadingZone, AllDigits;
    LeadingZoneAt(s, start);
    end, offset := start, 0;
    if end < |s| && s[end] == 'Z' {
      end := end + 1;
    } else if end + 5 <= |s| && (s[end] == '+' || s[end] == '-') {
      var sign: int := if s[end] == '+' then 1 else -1;
      if end + 6 <= |s| && s[end + 3] == ':' && AllDigits(s[end + 1..end + 3]) && AllDigits(s[end + 4..end + 6]) {
        var h := Num(s[end + 1..end + 3]);
        var m := Num(s[end + 4..end + 6]);
        offset := ZoneSeconds(sign, h, m);
        end := end + 6;
      } else if AllDigits(s[end + 1..end + 5]) {
        AllDigitsPart(s[end + 1..end + 5]);
        Halves(s, end);
        var h := Num(s[end + 1..end + 3]);
        var m := Num(s[end + 3..end + 5]);
        offset := ZoneSeconds(sign, h, m);
        end := end + 5;
      }
    }
  }

  method LeadingTimestamp(s: Bytes) returns (r: Option<(nat, int)>)
    ensures r == LeadingTs(s)
  {
    hide LeadingZone, LeadingFraction, LeadingClock, Instant;
    if |s| < 19 { return None; }
    var c := LeadingClockFields(s[..19]);
    if c.None? { return None; }
    var cut, micros := LeadingFractionLoop(s);
    var end, offset := LeadingZoneFields(s, cut);
    r := Some((end, Instant(c.value, offset, micros)));
  }

  // ----- agreement with the RFC 3339 reader -----

  /** What both readers accept: calendar ranges, and digits after a `.`. */
  predicate Shared(st: Stamp) {
    1 <= st.clock.month <= 12 && 1 <= st.clock.day <= 31 && st.clock.hour < 24 && st.clock.minute < 60
    && st.clock.second <= 60 && st.frac != Some([])
  }

  /** The instant RFC 3339 gives a stamp, cut to the microsecond. */
  function TrueInstant(st: Stamp): int
    requires Fits(st)
  {
    Instant(st.clock, OffsetSeconds(st.zone),
            if st.frac.Some? then FirstSixDigits(st.frac.value) else 0)
  }

  lemma LeadingClockText(c: Clock)
    requires ClockFits(c)
    ensures LeadingClock(ClockText(c)) == if InRange(c) then Some(c) else None
  {
    var s := ClockText(c);
    assert s[..10] == DateText(c) && s[11..] == TimeText(c);
    ColumnsOfDate(c, s);
    ColumnsOfTime(c, s);
    ReadDec4(c.year);
    ReadDec2(c.month);
    ReadDec2(c.day);
    ReadDec2(c.hour);
    ReadDec2(c.minute);
    ReadDec2(c.second);
  }

  lemma ColumnsOfDate(c: Clock, s: Bytes)
    requires ClockFits(c) && |s| == 19 && s[..10] == DateText(c)
    ensures s[0..4] == Dec4(c.year) && s[5..7] == Dec2(c.month) && s[8..10] == Dec2(c.day)
    ensures s[4] == '-' && s[7] == '-'
  {
    hide Dec4, Dec2;
    var d := DateText(c);
    assert s[0..4] == d[0..4] && s[5..7] == d[5..7] && s[8..10] == d[8..10];
    assert s[4] == d[4] && s[7] == d[7];
  }

  lemma ColumnsOfTime(c: Clock, s: Bytes)
    requires ClockFits(c) && |s| == 19 && s[11..] == TimeText(c)
    ensures s[11..13] == Dec2(c.hour) && s[14..16] == Dec2(c.minute) && s[17..19] == Dec2(c.second)
    ensures s[13] == ':' && s[16] == ':'
  {
    hide Dec2;
    var d := TimeText(c);
    assert s[11..13] == d[0..2] && s[14..16] == d[3..5] && s[17..19] == d[6..8];
    assert s[13] == d[2] && s[16] == d[5];
  }

  lemma AfterMark(mark: char, d: Bytes, rest: Bytes)
    requires (mark == '.' || mark == ',') && AllDigits(d) && (rest != [] ==> !IsDigit(rest[0]))
    ensures LeadingFraction([mark] + (d + rest)) == if d == [] then (0, [mark] + rest) else (FirstSixDigits(d), rest)
  {
    hide FirstSixDigits, DigitRun;
    var r := [mark] + (d + rest);
    DigitRunStops(d, rest);
    assert r[1..] == d + rest;
    if d == [] {
      assert d + rest == rest;
    } else {
      assert (d + rest)[..|d|] == d && (d + rest)[|d|..] == rest;
    }
  }

  lemma NoMark(rest: Bytes)
    requires rest != [] ==> rest[0] != '.' && rest[0] != ','
    ensures LeadingFraction(rest) == (0, rest)
  {
  }

  lemma LeadingFracText(f: Option<Bytes>, rest: Bytes)
    requires f.Some? ==> AllDigits(f.value)
    requires rest != [] && !IsDigit(rest[0]) && rest[0] != '.' && rest[0] != ','
    ensures LeadingFraction(FracText(f) + rest)
         == if f.None? then (0, rest)
            else if f.value == [] then (0, "." + rest)
            else (FirstSixDigits(f.value), rest)
  {
    hide FirstSixDigits, LeadingFraction;
    if f.Some? {
      AfterMark('.', f.value, rest);
      assert FracText(f) + rest == ['.'] + (f.value + rest);
    } else {
      NoMark(rest);
      assert FracText(f) + rest == rest;
    }
  }

  lemma LeadingZoneText(z: Zone)
    requires ZoneFits(z)
    ensures LeadingZone(ZoneText(z)) == (OffsetSeconds(z), [])
  {
    if z.Offset? {
      var s := ZoneText(z);
      assert s[1..3] == Dec2(z.hours) && s[4..6] == Dec2(z.minutes);
      ReadDec2(z.hours);
      ReadDec2(z.minutes);
    }
  }

  /** On a stamp that the RFC 3339 reader accepts the plain-text reader consumes
      the whole text and gives its true instant, with any number of fraction
      digits, exactly when the clock is in range and a `.` is followed by a digit. */
  lemma LeadingReadsStamp(st: Stamp)
    requires Fits(st)
    ensures LeadingTs(Print(st)) == Some((|Print(st)|, TrueInstant(st))) <==> Shared(st)
    ensures LeadingTs(Print(st)).Some? && LeadingTs(Print(st)).value.0 == |Print(st)| ==> Shared(st)
    ensures st.frac != Some([]) && !Shared(st) ==> LeadingTs(Print(st)).None?
  {
    hide ClockText, LeadingClock, LeadingFraction, LeadingZone, ZoneText, Instant, FirstSixDigits;
    var s := Print(st);
    LeadingClockText(st.clock);
    ReadZoneText(st.zone);
    ZoneTextMark(st.zone);
    LeadingFracText(st.frac, ZoneText(st.zone));
    LeadingZoneText(st.zone);
    NoZoneAtMark("." + ZoneText(st.zone));
    assert s[..19] == ClockText(st.clock) && s[19..] == FracText(st.frac) + ZoneText(st.zone);
  }

  lemma NoZoneAtMark(r: Bytes)
    requires r != [] && (r[0] == '.' || r[0] == ',')
    ensures LeadingZone(r) == (0, r)
  {
  }

  lemma ZoneTextMark(z: Zone)
    requires ZoneFits(z)
    ensures ZoneText(z) != [] && ZoneText(z)[0] != ','
  {
  }

  lemma NoFraction(f: Option<Bytes>)
    requires f.None?
    ensures FracMicros(f) == 0
  {
  }

  /** On a stamp that the RFC 3339 reader accepts the two readers agree exactly
      when the plain-text reader takes it all and the fraction is one that a `u32`
      can hold, or starts with six zeros. */
  lemma ReadersAgreeIff(st: Stamp)
    requires Fits(st)
    ensures ParseRfc3339(Print(st)).Some?
    ensures LeadingTs(Print(st)) == Some((|Print(st)|, ParseRfc3339(Print(st)).value))
        <==> Shared(st) && FractionFits(st.frac)
  {
    hide Print, ClockText, LeadingTs, ReadStamp, FracMicros, FirstSixDigits, Calendar.DaysFromCivil, Value, InRange;
    LeadingReadsStamp(st);
    ReadsEveryStamp(st);
    if st.frac.Some? {
      FractionIsExactIff(st.frac.value);
    } else {
      NoFraction(st.frac);
    }
  }

  // ----- what the plain-text reader takes beyond RFC 3339 -----

  lemma ReadsColumns(c: Clock, dash: char)
    requires ClockFits(c) && (dash == '-' || dash == '/')
    ensures LeadingClock(ClockText(c)[4 := dash][7 := dash]) == if InRange(c) then Some(c) else None
  {
    hide Dec2, Dec4, Value, InRange;
    var s := ClockText(c);
    var t := s[4 := dash][7 := dash];
    assert s[..10] == DateText(c) && s[11..] == TimeText(c);
    ColumnsOfDate(c, s);
    ColumnsOfTime(c, s);
    assert t[0..4] == s[0..4] && t[5..7] == s[5..7] && t[8..10] == s[8..10] && t[10] == s[10] == c.sep;
    assert t[11..13] == s[11..13] && t[14..16] == s[14..16] && t[17..19] == s[17..19];
    ReadDec4(c.year);
    ReadDec2(c.month);
    ReadDec2(c.day);
    ReadDec2(c.hour);
    ReadDec2(c.minute);
    ReadDec2(c.second);
  }

  lemma QuadRead(b: Bytes)
    requires |b| == 4 && AllDigits(b)
    ensures Value(b) < 10000 && Dec4(Value(b)) == b
  {
    ValueOfQuad(b);
  }

  lemma PairRead(b: Bytes)
    requires |b| == 2 && AllDigits(b)
    ensures Value(b) < 100 && Dec2(Value(b)) == b
  {
    ValueOfPair(b);
  }

  /** The columns taken are those of a clock, with one of the two marks. */
  lemma ColumnsOfRead(s: Bytes)
    requires |s| == 19 && LeadingClock(s).Some?
    ensures var c := LeadingClock(s).value;
            ClockFits(c) && (s[4] == '-' || s[4] == '/') && s == ClockText(c)[4 := s[4]][7 := s[4]]
  {
    hide Value, Dec2, Dec4, InRange;
    QuadRead(s[0..4]);
    PairRead(s[5..7]);
    PairRead(s[8..10]);
    PairRead(s[11..13]);
    PairRead(s[14..16]);
    PairRead(s[17..19]);
    var c := LeadingClock(s).value;
    Together(s, s[0..4], s[5..7], s[8..10], s[11..13], s[14..16], s[17..19]);
    var time := s[11..13] + ":" + s[14..16] + ":" + s[17..19];
    assert ClockText(c) == s[0..4] + "-" + s[5..7] + "-" + s[8..10] + [s[10]] + time;
  }

  lemma Together(s: Bytes, y: Bytes, m: Bytes, d: Bytes, h: Bytes, mi: Bytes, x: Bytes)
    requires |s| == 19 && y == s[0..4] && m == s[5..7] && d == s[8..10]
    requires h == s[11..13] && mi == s[14..16] && x == s[17..19] && s[7] == s[4] && s[13] == ':' && s[16] == ':'
    ensures s == (y + "-" + m + "-" + d + [s[10]] + (h + ":" + mi + ":" + x))[4 := s[4]][7 := s[4]]
  {
  }

  /** The text begins with a clock whose fields are in range. */
  predicate Begins(s: Bytes, c: Clock, dash: char) {
    ClockFits(c) && Shared(Stamp(c, None, Utc)) && (dash == '-' || dash == '/')
    && |s| >= 19 && s[..19] == ClockText(c)[4 := dash][7 := dash]
  }

  /** The plain-text reader takes exactly the texts that begin with a clock whose
      fields are in range, its date written with dashes or with slashes. */
  lemma LeadingTakesIff(s: Bytes)
    ensures LeadingTs(s).Some?
       <==> exists c, dash :: Begins(s, c, dash)
  {
    hide ClockText, LeadingClock, LeadingFraction, LeadingZone, Instant;
    if LeadingTs(s).Some? {
      ColumnsOfRead(s[..19]);
      TakenInRange(s[..19]);
      assert Begins(s, LeadingClock(s[..19]).value, s[4]);
    }
    forall c, dash | Begins(s, c, dash)
      ensures LeadingTs(s).Some?
    {
      ReadsColumns(c, dash);
    }
  }

  lemma TakenInRange(s: Bytes)
    requires |s| == 19 && LeadingClock(s).Some?
    ensures Shared(Stamp(LeadingClock(s).value, None, Utc))
  {
    hide Value, ClockColumns;
  }

  /** The zone without a colon. */
  lemma ReadsShortZone(east: bool, h: nat, m: nat, rest: Bytes)
    requires h < 100 && m < 100
    ensures LeadingZone((if east then "+" else "-") + Dec2(h) + Dec2(m) + rest)
         == (if east then h * 3600 + m * 60 else -(h * 3600 + m * 60), rest)
  {
    hide Dec2, Value;
    var r := (if east then "+" else "-") + Dec2(h) + Dec2(m) + rest;
    assert r[1..5] == Dec2(h) + Dec2(m) && r[5..] == rest;
    assert r[1..5][..2] == Dec2(h) && r[1..5][2..] == Dec2(m);
    assert IsDigit(r[1..5][2]) && r[3] == r[1..5][2];
    ReadDec2(h);
    ReadDec2(m);
  }

  lemma ReadsLongZone(east: bool, h: nat, m: nat, rest: Bytes)
    requires h < 100 && m < 100
    ensures LeadingZone((if east then "+" else "-") + Dec2(h) + ":" + Dec2(m) + rest)
         == (if east then h * 3600 + m * 60 else -(h * 3600 + m * 60), rest)
  {
    hide Dec2, Value;
    var r := (if east then "+" else "-") + Dec2(h) + ":" + Dec2(m) + rest;
    assert r[1..3] == Dec2(h) && r[3] == ':' && r[4..6] == Dec2(m) && r[6..] == rest;
    ReadDec2(h);
    ReadDec2(m);
  }

  lemma ReadsNoZone(rest: Bytes)
    ensures LeadingZone("Z" + rest) == (0, rest)
    ensures rest == [] || (rest[0] != 'Z' && rest[0] != '+' && rest[0] != '-') ==> LeadingZone("" + rest) == (0, rest)
  {
    assert ("Z" + rest)[1..] == rest && "" + rest == rest;
  }

  /** Clock, fraction and zone read one after the other. */
  lemma ReadsParts(c: Clock, n: nat, dash: char, mark: char, zone: Bytes, offset: int, rest: Bytes)
    requires ClockFits(c) && InRange(c) && n < 1000
    requires (dash == '-' || dash == '/') && (mark == '.' || mark == ',')
    requires (zone + rest != [] ==> !IsDigit((zone + rest)[0])) && LeadingZone(zone + rest) == (offset, rest)
    ensures var s := ClockText(c)[4 := dash][7 := dash] + ([mark] + Dec3(n)) + zone;
            LeadingTs(s + rest) == Some((|s|, Instant(c, offset, n * 1000)))
  {
    hide ClockText, LeadingClock, LeadingFraction, LeadingZone, Instant, FirstSixDigits, Dec3, InRange;
    var clock := ClockText(c)[4 := dash][7 := dash];
    var s := clock + ([mark] + Dec3(n)) + zone;
    ReadsColumns(c, dash);
    AfterMark(mark, Dec3(n), zone + rest);
    ThreeDigits(n);
    assert (s + rest)[..19] == clock && (s + rest)[19..] == [mark] + (Dec3(n) + (zone + rest));
  }

  lemma ThreeDigits(n: nat)
    requires n < 1000
    ensures Dec3(n) != [] && FirstSixDigits(Dec3(n)) == n * 1000
  {
    hide Dec3;
    ReadDec3(n);
    assert Pow10(3) == 1000 by { assert Pow10(2) == 100; }
    assert Dec3(n)[..|Dec3(n)|] == Dec3(n);
  }

  /** A local time, with slashes or dashes, a comma or a full stop, names the
      instant that its zone makes of it, to the millisecond, whatever follows. */
  lemma LeadingReadsLocalTime(local: int, sep: char, dash: char, mark: char, zone: Bytes, offset: int, rest: Bytes)
    requires YEAR_0 <= local < YEAR_10000 && (sep == 'T' || sep == ' ')
    requires (dash == '-' || dash == '/') && (mark == '.' || mark == ',')
    requires (zone + rest != [] ==> !IsDigit((zone + rest)[0])) && LeadingZone(zone + rest) == (offset, rest)
    ensures var s := LocalText(local, sep)[4 := dash][7 := dash][19 := mark] + zone;
            LeadingTs(s + rest) == Some((|s|, local - local % 1000 - offset * 1000000))
  {
    hide ClockText, LeadingTs, LeadingZone, Instant, Dec3, FormatTs, NamesATime, InRange;
    var c, n := ShownFields(local);
    ShownText(c, n, sep);
    var c' := c.(sep := sep);
    TimeInRange(c, sep);
    ReadsParts(c', n, dash, mark, zone, offset, rest);
    InstantShifts(c', offset, n * 1000);
    InstantAnySep(c, sep, n * 1000);
    MarksSet(ClockText(c'), Dec3(n), dash, mark, zone);
  }

  lemma TimeInRange(c: Clock, sep: char)
    requires NamesATime(c)
    ensures InRange(c.(sep := sep))
  {
  }

  lemma MarksSet(clock: Bytes, millis: Bytes, dash: char, mark: char, zone: Bytes)
    requires |clock| == 19 && |millis| == 3
    ensures (clock + ("." + millis))[4 := dash][7 := dash][19 := mark] + zone
         == clock[4 := dash][7 := dash] + ([mark] + millis) + zone
  {
  }

  /** The same with the zone written out: none, `Z`, or an offset east or west with
      or without its colon, always for the instant the local time was taken from.
      What follows is left: anything behind a zone, and where there is none
      anything that begins neither a zone nor with a digit. */
  lemma LeadingReadsAnyZone(ts: int, sep: char, dash: char, mark: char, east: bool, h: nat, m: nat, rest: Bytes)
    requires (sep == 'T' || sep == ' ') && (dash == '-' || dash == '/') && (mark == '.' || mark == ',')
    requires h < 100 && m < 100
    requires var ahead := (h * 3600 + m * 60) * 1000000;
             YEAR_0 <= (if east then ts + ahead else ts - ahead) < YEAR_10000
    ensures var ahead := (h * 3600 + m * 60) * 1000000;
            var local := if east then ts + ahead else ts - ahead;
            var s := LocalText(local, sep)[4 := dash][7 := dash][19 := mark];
            var sign := if east then "+" else "-";
            (forall zone | zone == sign + Dec2(h) + ":" + Dec2(m) || zone == sign + Dec2(h) + Dec2(m) ::
               LeadingTs(s + zone + rest) == Some((|s + zone|, ts - ts % 1000)))
            && LeadingTs(s + "Z" + rest) == Some((|s| + 1, local - local % 1000))
            && (rest == [] || (!('0' <= rest[0] <= '9') && rest[0] != 'Z' && rest[0] != '+' && rest[0] != '-')
                ==> LeadingTs(s + rest) == Some((|s|, local - local % 1000)))
  {
    hide LeadingTs, LeadingZone, LocalText, Dec2;
    var secs := h * 3600 + m * 60;
    var local := if east then ts + secs * 1000000 else ts - secs * 1000000;
    var sign := if east then "+" else "-";
    SameMillis(ts, secs, east);
    ReadsLongZone(east, h, m, rest);
    ReadsShortZone(east, h, m, rest);
    ReadsNoZone(rest);
    LeadingReadsLocalTime(local, sep, dash, mark, sign + Dec2(h) + ":" + Dec2(m), if east then secs else -secs, rest);
    LeadingReadsLocalTime(local, sep, dash, mark, sign + Dec2(h) + Dec2(m), if east then secs else -secs, rest);
    LeadingReadsLocalTime(local, sep, dash, mark, "Z", 0, rest);
    var s := LocalText(local, sep)[4 := dash][7 := dash][19 := mark];
    if rest == [] || (!IsDigit(rest[0]) && rest[0] != 'Z' && rest[0] != '+' && rest[0] != '-') {
      assert "" + rest == rest && s + "" == s;
      LeadingReadsLocalTime(local, sep, dash, mark, "", 0, rest);
    }
  }

  /** And so on every text: both give it one instant, the plain-text reader for the
      whole of it, exactly when it is such a stamp. */
  lemma ReadersAgreeOnText(s: Bytes)
    ensures ParseRfc3339(s).Some? && LeadingTs(s) == Some((|s|, ParseRfc3339(s).value))
        <==> exists st :: Fits(st) && Print(st) == s && Shared(st) && FractionFits(st.frac)
  {
    hide ParseRfc3339, LeadingTs, Print, Shared, FractionFits;
    if ParseRfc3339(s).Some? {
      AcceptsExactlyStamps(s, ParseRfc3339(s).value);
    }
    forall st | Fits(st) && Print(st) == s
      ensures ParseRfc3339(s).Some?
      ensures LeadingTs(s) == Some((|s|, ParseRfc3339(s).value)) <==> Shared(st) && FractionFits(st.frac)
    {
      ReadersAgreeIff(st);
    }
  }

  // ----- `parse_logback_ts` -----

  /** The copy in the stack buffer: `T` for the separating space, `.` for `,`. */
  function Normalized(p: Bytes): (s: Bytes)
    requires |p| > 10
    ensures |s| == |p|
  {
    seq(|p|, i requires 0 <= i < |p| => if i == 10 then 'T' else if p[i] == ',' then '.' else p[i])
  }

  /** `parse_logback_ts`: at most 31 bytes fit the buffer with the final `Z`. */
  function LogbackTs(p: Bytes): Option<int> {
    if 19 <= |p| < 32 && p[10] == ' ' then ParseRfc3339(Normalized(p) + "Z") else None
  }

  method ParseLogbackTs(prefix: Bytes) returns (r: Option<int>)
    ensures r == LogbackTs(prefix)
  {
    if |prefix| < 19 { return None; }
    var buf := new char[32](_ => '\0');
    if |prefix| >= buf.Length { return None; }
    for i := 0 to |prefix|
      invariant forall k | 0 <= k < i :: buf[k] == prefix[k]
    {
      buf[i] := prefix[i];
    }
    if buf[10] != ' ' { return None; }
    buf[10] := 'T';
    for i := 0 to |prefix|
      invariant forall k | 0 <= k < i :: buf[k] == Normalized(prefix)[k]
      invariant forall k | i <= k < |prefix| :: buf[k] == if k == 10 then 'T' else prefix[k]
    {
      if buf[i] == ',' {
        buf[i] := '.';
      }
    }
    buf[|prefix|] := 'Z';
    assert buf[..|prefix| + 1] == Normalized(prefix) + "Z";
    r := ParseRfc3339Micros(buf[..|prefix| + 1]);
  }

  /** A zoneless logback stamp: a space between date and time, and a fraction
      after a full stop or a comma. */
  function LogbackText(c: Clock, mark: char, frac: Option<Bytes>): Bytes
    requires ClockFits(c)
  {
    ClockText(c) + if frac.Some? then [mark] + frac.value else []
  }

  /** The UTC stamp that a zoneless logback stamp stands for. */
  function LogbackStamp(c: Clock, frac: Option<Bytes>): Stamp {
    Stamp(c.(sep := 'T'), frac, Utc)
  }

  lemma NormalizedLogback(c: Clock, mark: char, frac: Option<Bytes>)
    requires ClockFits(c) && c.sep == ' ' && (mark == '.' || mark == ',')
    requires frac.Some? ==> AllDigits(frac.value)
    ensures Normalized(LogbackText(c, mark, frac)) + "Z" == Print(LogbackStamp(c, frac))
  {
    hide ClockText, Normalized, FracText;
    var p := LogbackText(c, mark, frac);
    ClockHasNoComma(c);
    ClockTextSep(c, 'T');
    NormalizedParts(ClockText(c), if frac.Some? then [mark] + frac.value else []);
    NormalizedFrac(mark, frac);
    assert ClockText(c.(sep := 'T')) + FracText(frac) + "Z" == ClockText(c.(sep := 'T')) + (FracText(frac) + "Z");
  }

  function Dotted(s: Bytes): Bytes {
    seq(|s|, i requires 0 <= i < |s| => if s[i] == ',' then '.' else s[i])
  }

  lemma NormalizedParts(clock: Bytes, rest: Bytes)
    requires |clock| == 19 && forall i | 0 <= i < 19 :: clock[i] != ','
    ensures Normalized(clock + rest) == clock[10 := 'T'] + Dotted(rest)
  {
  }

  lemma NormalizedFrac(mark: char, frac: Option<Bytes>)
    requires (mark == '.' || mark == ',') && (frac.Some? ==> AllDigits(frac.value))
    ensures Dotted(if frac.Some? then [mark] + frac.value else []) == FracText(frac)
  {
    if frac.Some? {
      forall i | 0 <= i < |frac.value| ensures frac.value[i] != ',' {
        assert frac.value[i] in frac.value;
      }
    }
  }

  lemma ClockHasNoComma(c: Clock)
    requires ClockFits(c)
    ensures forall i | 0 <= i < 19 :: ClockText(c)[i] != ','
    ensures ClockText(c)[10] == c.sep
    ensures DateText(c.(sep := 'T')) == DateText(c) && TimeText(c.(sep := 'T')) == TimeText(c)
  {
    assert forall i | 0 <= i < 10 :: DateText(c)[i] != ',';
    assert forall i | 0 <= i < 8 :: TimeText(c)[i] != ',';
    assert ClockText(c) == DateText(c) + [c.sep] + TimeText(c);
  }

  lemma LogbackAfterClock(mark: char, frac: Option<Bytes>)
    requires (mark == '.' || mark == ',') && (frac.Some? ==> AllDigits(frac.value))
    ensures LeadingFraction(if frac.Some? then [mark] + frac.value else [])
         == if frac.None? then (0, [])
            else if frac.value == [] then (0, [mark])
            else (FirstSixDigits(frac.value), [])
  {
    hide FirstSixDigits, LeadingFraction;
    if frac.Some? {
      AfterMark(mark, frac.value, []);
      assert frac.value + [] == frac.value && [mark] + [] == [mark];
    } else {
      NoMark([]);
    }
  }

  /** On a zoneless stamp the plain-text reader consumes the whole text and gives
      the UTC instant exactly when the clock is in range and the mark is followed
      by a digit. */
  lemma LeadingReadsLogback(c: Clock, mark: char, frac: Option<Bytes>)
    requires ClockFits(c) && c.sep == ' ' && (mark == '.' || mark == ',')
    requires frac.Some? ==> AllDigits(frac.value)
    ensures var p := LogbackText(c, mark, frac);
            (LeadingTs(p) == Some((|p|, TrueInstant(LogbackStamp(c, frac)))) <==> Shared(LogbackStamp(c, frac)))
            && (LeadingTs(p).Some? && LeadingTs(p).value.0 == |p| ==> Shared(LogbackStamp(c, frac)))
  {
    hide ClockText, LeadingClock, LeadingFraction, LeadingZone, FirstSixDigits, Calendar.DaysFromCivil;
    var p := LogbackText(c, mark, frac);
    var rest := if frac.Some? then [mark] + frac.value else [];
    LeadingClockText(c);
    LogbackAfterClock(mark, frac);
    NoZoneAtMark([mark]);
    NoZoneAtEnd();
    assert p[..19] == ClockText(c) && p[19..] == rest;
  }

  lemma NoZoneAtEnd()
    ensures LeadingZone([]) == (0, [])
  {
  }

  /** On zoneless stamps the logback reader agrees with the plain-text reader
      exactly when that takes the whole text, the text fits the 32-byte buffer and
      the fraction a `u32`. */
  lemma LogbackAgreesIff(c: Clock, mark: char, frac: Option<Bytes>)
    requires ClockFits(c) && c.sep == ' ' && (mark == '.' || mark == ',')
    requires frac.Some? ==> AllDigits(frac.value)
    ensures var p := LogbackText(c, mark, frac);
            LogbackTs(p).Some? && LeadingTs(p) == Some((|p|, LogbackTs(p).value))
            <==> Shared(LogbackStamp(c, frac)) && |p| < 32 && FractionFits(frac)
  {
    hide ClockText, LeadingTs, Normalized, Print, TrueInstant, FirstSixDigits, Value, ParseRfc3339, Shared;
    var p, st := LogbackText(c, mark, frac), LogbackStamp(c, frac);
    LeadingReadsLogback(c, mark, frac);
    LogbackColumns(c, mark, frac);
    if |p| < 32 {
      NormalizedLogback(c, mark, frac);
      LeadingReadsStamp(st);
      ReadersAgreeIff(st);
    }
  }

  lemma LogbackColumns(c: Clock, mark: char, frac: Option<Bytes>)
    requires ClockFits(c)
    ensures |LogbackText(c, mark, frac)| >= 19 && LogbackText(c, mark, frac)[10] == c.sep
  {
    ClockHasNoComma(c);
    assert LogbackText(c, mark, frac)[10] == ClockText(c)[10];
  }
}
