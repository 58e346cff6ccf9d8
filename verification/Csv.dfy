/** CSV and TSV records: the splitter of the parser against the encoding of
    section 2 of RFC 4180, and projection of a column by name. */
module Csv {
  import opened Common
  import opened Decimal

  datatype Delim = Comma | Tab {
    function Byte(): char { if Comma? then ',' else '\t' }
  }

  // ----- the encoding -----

  /** A field as written: in quotes, with quotes doubled, or bare. */
  datatype Field = Quoted(value: Bytes) | Bare(value: Bytes)

  predicate WellFormed(f: Field, delim: Delim) {
    f.Bare? ==> delim.Byte() !in f.value && (f.value == [] || f.value[0] != '"')
  }

  function Doubled(v: Bytes): Bytes {
    if v == [] then []
    else (if v[0] == '"' then ['"', '"'] else [v[0]]) + Doubled(v[1..])
  }

  function FieldText(f: Field): Bytes {
    match f
    case Quoted(v) => ['"'] + Doubled(v) + ['"']
    case Bare(v) => v
  }

  function RecordText(fields: seq<Field>, delim: Delim): Bytes
    requires fields != []
  {
    if |fields| == 1 then FieldText(fields[0])
    else FieldText(fields[0]) + [delim.Byte()] + RecordText(fields[1..], delim)
  }

  function Values(fields: seq<Field>): (vs: seq<Bytes>)
    ensures |vs| == |fields|
    ensures forall i | 0 <= i < |fields| :: vs[i] == fields[i].value
  {
    if fields == [] then [] else [fields[0].value] + Values(fields[1..])
  }

  // ----- the splitter, as a function on what is left of the line -----

  /** Content of a quoted field after its opening quote, and what follows the
      closing one. */
  function ReadQuoted(s: Bytes): (r: (Bytes, Bytes))
    ensures |r.1| <= |s|
  {
    if s == [] then ([], [])
    else if s[0] == '"' then
      if |s| > 1 && s[1] == '"' then
        var (v, rest) := ReadQuoted(s[2..]);
        (['"'] + v, rest)
      else ([], s[1..])
    else
      var (v, rest) := ReadQuoted(s[1..]);
      ([s[0]] + v, rest)
  }

  function BareLength(s: Bytes, delim: Delim): (n: nat)
    ensures n <= |s|
  {
    if s == [] || s[0] == delim.Byte() then 0 else 1 + BareLength(s[1..], delim)
  }

  /** `owed`: the line so far ended in a delimiter, so one more field, possibly
      empty, must follow. */
  function SplitFrom(s: Bytes, delim: Delim, owed: bool): seq<Bytes>
    decreases |s|
  {
    if s == [] then (if owed then [[]] else [])
    else if s[0] == '"' then
      var (v, rest) := ReadQuoted(s[1..]);
      if rest == [] then [v]
      else if rest[0] == delim.Byte() then [v] + SplitFrom(rest[1..], delim, true)
      else [v] + SplitFrom(rest, delim, false)
    else
      var n := BareLength(s, delim);
      if n < |s| then [s[..n]] + SplitFrom(s[n + 1..], delim, true)
      else [s]
  }

  function Split(line: Bytes, delim: Delim): seq<Bytes> { SplitFrom(line, delim, true) }

  // ----- the splitter, as the source runs it -----

  lemma ReadQuotedStep(line: Bytes, i: nat)
    requires i <= |line|
    ensures ReadQuoted(line[i..])
         == (if i == |line| then ([], [])
             else if line[i] != '"' then ([line[i]] + ReadQuoted(line[i + 1..]).0, ReadQuoted(line[i + 1..]).1)
             else if i + 1 < |line| && line[i + 1] == '"' then
               (['"'] + ReadQuoted(line[i + 2..]).0, ReadQuoted(line[i + 2..]).1)
             else ([], line[i + 1..]))
  {
    if i < |line| {
      assert line[i..][1..] == line[i + 1..];
      if i + 1 < |line| {
        assert line[i..][2..] == line[i + 2..];
      }
    }
  }

  method QuotedLoop(line: Bytes, start: nat) returns (value: Bytes, end: nat)
    requires start <= |line|
    ensures start <= end <= |line|
    ensures value == ReadQuoted(line[start..]).0 && line[end..] == ReadQuoted(line[start..]).1
  {
    hide ReadQuoted;
    value := [];
    var i := start;
    ghost var goal := ReadQuoted(line[start..]);
    while i < |line|
      invariant start <= i <= |line|
      invariant goal.0 == value + ReadQuoted(line[i..]).0 && goal.1 == ReadQuoted(line[i..]).1
    {
      ReadQuotedStep(line, i);
      if line[i] == '"' {
        if i + 1 < |line| && line[i + 1] == '"' {
          value := value + ['"'];
          i := i + 2;
          continue;
        }
        i := i + 1;
        return value, i;
      }
      value := value + [line[i]];
      i := i + 1;
    }
    ReadQuotedStep(line, i);
    end := i;
  }

  method BareLoop(line: Bytes, start: nat, delim: Delim) returns (end: nat)
    requires start <= |line|
    ensures start <= end <= |line| && end == start + BareLength(line[start..], delim)
    ensures end == |line| || line[end] == delim.Byte()
  {
    end := start;
    while end < |line| && line[end] != delim.Byte()
      invariant start <= end <= |line|
      invariant BareLength(line[start..], delim) == end - start + BareLength(line[end..], delim)
    {
      assert line[end..][1..] == line[end + 1..];
      end := end + 1;
    }
  }

  predicate OwedAt(line: Bytes, delim: Delim, i: nat)
    requires i <= |line|
  {
    i == 0 || line[i - 1] == delim.Byte()
  }

  lemma QuotedStep(line: Bytes, i: nat, end: nat, delim: Delim, owed: bool)
    requires i < end <= |line| && line[i] == '"' && line[end..] == ReadQuoted(line[i + 1..]).1
    ensures SplitFrom(line[i..], delim, owed)
         == (var value := ReadQuoted(line[i + 1..]).0;
             if end == |line| then [value]
             else if line[end] == delim.Byte() then [value] +
                 SplitFrom(line[end + 1..], delim, OwedAt(line, delim, end + 1))
             else [value] + SplitFrom(line[end..], delim, OwedAt(line, delim, end)))
  {
    hide ReadQuoted, BareLength;
    assert line[i..][1..] == line[i + 1..];
    if end < |line| {
      assert line[end..][1..] == line[end + 1..];
      QuoteBefore(line, i + 1, end, delim);
    }
  }

  lemma BareStep(line: Bytes, i: nat, end: nat, delim: Delim, owed: bool)
    requires i < |line| && line[i] != '"' && i <= end <= |line|
    requires end == i + BareLength(line[i..], delim) && (end < |line| ==> line[end] == delim.Byte())
    ensures SplitFrom(line[i..], delim, owed)
         == if end < |line| then [line[i..end]] + SplitFrom(line[end + 1..], delim, OwedAt(line, delim, end + 1))
            else [line[i..end]] + SplitFrom(line[end..], delim, OwedAt(line, delim, end))
  {
    hide BareLength, ReadQuoted, SplitFrom;
    BareStepUnfold(line[i..], delim, owed);
    SliceOfSuffix(line, i, 0, end - i);
    if end < |line| {
      SliceOfSuffix(line, i, end - i + 1, |line| - i);
    } else {
      BareLast(line, i, delim);
      EndOfLine(line, delim);
      assert line[i..end] == line[i..];
    }
  }

  lemma BareStepUnfold(s: Bytes, delim: Delim, owed: bool)
    requires s != [] && s[0] != '"'
    ensures var n := BareLength(s, delim);
            SplitFrom(s, delim, owed) == if n < |s| then [s[..n]] + SplitFrom(s[n + 1..], delim, true) else [s]
  {
    hide BareLength, ReadQuoted;
  }

  method SplitRecord(line: Bytes, delim: Delim) returns (out: seq<Bytes>)
    ensures out == Split(line, delim)
  {
    hide SplitFrom, ReadQuoted, BareLength, Split, OwedAt;
    var d := delim.Byte();
    ghost var goal := Split(line, delim);
    out := [];
    var i := 0;
    SplitStart(line, delim);
    while i <= |line|
      invariant i <= |line| + 1
      invariant i <= |line| ==> goal == out + SplitFrom(line[i..], delim, OwedAt(line, delim, i))
      invariant i > |line| ==> goal == out
      decreases |line| + 1 - i
    {
      if i == |line| {
        EndOfLine(line, delim);
        if line == [] || line[|line| - 1] == d {
          out := out + [[]];
        }
        break;
      }
      if line[i] == '"' {
        var value, end := QuotedLoop(line, i + 1);
        QuotedStep(line, i, end, delim, OwedAt(line, delim, i));
        ghost var j := if end < |line| && line[end] == d then end + 1 else end;
        Regroup(out, value, SplitFrom(line[j..], delim, OwedAt(line, delim, j)));
        out := out + [value];
        if end < |line| && line[end] == d {
          i := end + 1;
        } else if end >= |line| {
          break;
        } else {
          i := end;
        }
        continue;
      }
      var end := BareLoop(line, i, delim);
      BareStep(line, i, end, delim, OwedAt(line, delim, i));
      var value := line[i..end];
      ghost var j := if end < |line| then end + 1 else end;
      Regroup(out, value, SplitFrom(line[j..], delim, OwedAt(line, delim, j)));
      out := out + [value];
      if end < |line| && line[end] == d {
        i := end + 1;
      } else {
        i := end;
      }
    }
  }

  lemma Regroup(out: seq<Bytes>, value: Bytes, rest: seq<Bytes>)
    ensures out + ([value] + rest) == (out + [value]) + rest
  {
  }

  lemma EndOfLine(line: Bytes, delim: Delim)
    ensures SplitFrom(line[|line|..], delim, OwedAt(line, delim, |line|))
         == if line == [] || line[|line| - 1] == delim.Byte() then [[]] else []
  {
  }

  lemma SplitStart(line: Bytes, delim: Delim)
    ensures Split(line, delim) == [] + SplitFrom(line[0..], delim, OwedAt(line, delim, 0))
  {
    assert line[0..] == line;
  }

  /** A quoted field that stops before the end of the line stops at a quote. */
  lemma {:induction false} QuoteBefore(line: Bytes, start: nat, end: nat, delim: Delim)
    requires 0 < start <= end < |line| && line[end..] == ReadQuoted(line[start..]).1
    ensures !OwedAt(line, delim, end)
    decreases |line| - start
  {
    var s := line[start..];
    if s[0] == '"' && !(|s| > 1 && s[1] == '"') {
      assert s[1..] == line[start + 1..];
      assert end == start + 1;
    } else {
      var step := if s[0] == '"' then 2 else 1;
      assert s[step..] == line[start + step..];
      QuoteBefore(line, start + step, end, delim);
    }
  }

  /** A bare field that runs to the end of the line does not end in a delimiter. */
  lemma {:induction false} BareLast(line: Bytes, i: nat, delim: Delim)
    requires i < |line| && BareLength(line[i..], delim) == |line| - i
    ensures !OwedAt(line, delim, |line|)
    decreases |line| - i
  {
    assert line[i..][1..] == line[i + 1..];
    if i + 1 < |line| {
      BareLast(line, i + 1, delim);
    }
  }

  // ----- the splitter inverts the encoding -----

  lemma {:induction false} ReadsDoubled(v: Bytes, rest: Bytes)
    requires rest == [] || rest[0] != '"'
    ensures ReadQuoted(Doubled(v) + ['"'] + rest) == (v, rest)
  {
    var s := Doubled(v) + ['"'] + rest;
    if v == [] {
      assert s == ['"'] + rest;
      assert s[1..] == rest;
    } else {
      var tail := Doubled(v[1..]) + ['"'] + rest;
      assert v == [v[0]] + v[1..];
      ReadsDoubled(v[1..], rest);
      if v[0] == '"' {
        assert s == ['"', '"'] + tail;
        assert s[2..] == tail;
      } else {
        assert s == [v[0]] + tail;
        assert s[1..] == tail;
      }
    }
  }

  lemma {:induction false} BareLengthOf(v: Bytes, rest: Bytes, delim: Delim)
    requires delim.Byte() !in v && (rest == [] || rest[0] == delim.Byte())
    ensures BareLength(v + rest, delim) == |v|
  {
    if v == [] {
      assert v + rest == rest;
    } else {
      assert (v + rest)[1..] == v[1..] + rest;
      BareLengthOf(v[1..], rest, delim);
    }
  }

  /** A field is read whole when a delimiter or the end of the line follows. */
  lemma ReadsField(f: Field, rest: Bytes, delim: Delim)
    requires WellFormed(f, delim) && (rest == [] || rest[0] == delim.Byte())
    ensures SplitFrom(FieldText(f) + rest, delim, true)
         == [f.value] + if rest == [] then [] else SplitFrom(rest[1..], delim, true)
  {
    match f {
      case Quoted(v) => ReadsQuotedField(v, rest, delim);
      case Bare(v) => ReadsBareField(v, rest, delim);
    }
  }

  lemma ReadsQuotedField(v: Bytes, rest: Bytes, delim: Delim)
    requires rest == [] || rest[0] == delim.Byte()
    ensures SplitFrom(FieldText(Quoted(v)) + rest, delim, true)
         == [v] + if rest == [] then [] else SplitFrom(rest[1..], delim, true)
  {
    hide ReadQuoted, BareLength, Doubled;
    var s := FieldText(Quoted(v)) + rest;
    assert s[1..] == Doubled(v) + ['"'] + rest;
    ReadsDoubled(v, rest);
  }

  lemma ReadsBareField(v: Bytes, rest: Bytes, delim: Delim)
    requires WellFormed(Bare(v), delim) && (rest == [] || rest[0] == delim.Byte())
    ensures SplitFrom(v + rest, delim, true) == [v] + if rest == [] then [] else SplitFrom(rest[1..], delim, true)
  {
    hide ReadQuoted, BareLength;
    var s := v + rest;
    BareLengthOf(v, rest, delim);
    if s != [] {
      assert s[0] != '"';
      BareStepUnfold(s, delim, true);
      assert s[..|v|] == v;
      if rest != [] {
        assert s[|v| + 1..] == rest[1..];
      } else {
        assert s == v;
      }
    }
  }

  /** Splitting an encoded record gives its values back, field by field:
      quoted or bare, empty in any position, with either delimiter. */
  lemma {:induction false} SplitInvertsEncoding(fields: seq<Field>, delim: Delim)
    requires fields != [] && forall f | f in fields :: WellFormed(f, delim)
    ensures Split(RecordText(fields, delim), delim) == Values(fields)
  {
    hide SplitFrom, FieldText;
    var f := fields[0];
    if |fields| == 1 {
      ReadsField(f, [], delim);
      assert FieldText(f) + [] == RecordText(fields, delim);
      assert Values(fields) == [f.value] + [];
    } else {
      var tail := RecordText(fields[1..], delim);
      ReadsField(f, [delim.Byte()] + tail, delim);
      assert ([delim.Byte()] + tail)[1..] == tail;
      assert RecordText(fields, delim) == FieldText(f) + ([delim.Byte()] + tail);
      SplitInvertsEncoding(fields[1..], delim);
    }
  }

  // ----- projection -----

  /** `position`: the first header with this name. */
  function ColumnIndex(headers: seq<Bytes>, name: Bytes): (r: Option<nat>)
    ensures r.Some? ==> r.value < |headers| && headers[r.value] == name && name !in headers[..r.value]
    ensures r.None? ==> name !in headers
  {
    if headers == [] then None
    else if headers[0] == name then Some(0)
    else
      match ColumnIndex(headers[1..], name)
      case Some(i) =>
        assert headers[..i + 1] == [headers[0]] + headers[1..][..i];
        Some(i + 1)
      case None => None
  }

  const USIZE := 0x1_0000_0000_0000_0000

  /** `str::parse::<usize>`: an optional plus sign, digits, no overflow. */
  function ParseUsize(s: Bytes): Option<nat> {
    var digits := if s != [] && s[0] == '+' then s[1..] else s;
    if digits != [] && AllDigits(digits) && Value(digits) < USIZE then Some(Value(digits)) else None
  }

  function Cell(row: seq<Bytes>, i: nat): Option<Bytes> { if i < |row| then Some(row[i]) else None }

  /** `project_field_with_header`: by header name, else by `_N` position. */
  function ProjectWithHeader(line: Bytes, delim: Delim, headers: seq<Bytes>, key: Bytes): Option<Bytes> {
    var row := Split(line, delim);
    match ColumnIndex(headers, key)
    case Some(i) => Cell(row, i)
    case None =>
      if key != [] && key[0] == '_' then
        match ParseUsize(key[1..])
        case Some(n) => if n >= 1 then Cell(row, n - 1) else None
        case None => None
      else None
  }

  /** Projecting a named column of an encoded record gives the value written in
      the first column of that name, or nothing when the record is shorter. */
  lemma ProjectsNamedColumn(fields: seq<Field>, delim: Delim, headers: seq<Bytes>, i: nat)
    requires fields != [] && forall f | f in fields :: WellFormed(f, delim)
    requires i < |headers| && headers[i] !in headers[..i]
    ensures ProjectWithHeader(RecordText(fields, delim), delim, headers, headers[i])
         == if i < |fields| then Some(fields[i].value) else None
  {
    hide Split, RecordText;
    SplitInvertsEncoding(fields, delim);
    var j := ColumnIndex(headers, headers[i]).value;
    if j < i {
      InPrefix(headers, j, i);
    } else if i < j {
      InPrefix(headers, i, j);
    }
  }

  lemma InPrefix(s: seq<Bytes>, i: nat, k: nat)
    requires i < k <= |s|
    ensures s[i] in s[..k]
  {
    assert s[..k][i] == s[i];
  }

  /** A positional key `_N` of an unnamed column gives the N-th value, also with a
      plus sign in front of the number; columns are counted from one. */
  lemma ProjectsPosition(fields: seq<Field>, delim: Delim, headers: seq<Bytes>, n: nat, plus: bool)
    requires fields != [] && forall f | f in fields :: WellFormed(f, delim)
    requires n < USIZE && (if plus then "_+" else "_") + Digits(n) !in headers
    ensures ProjectWithHeader(RecordText(fields, delim), delim, headers, (if plus then "_+" else "_") + Digits(n))
         == if 1 <= n <= |fields| then Some(fields[n - 1].value) else None
  {
    hide Split, RecordText, Value, AllDigits, Digits, ParseUsize, ColumnIndex;
    SplitInvertsEncoding(fields, delim);
    var key := (if plus then "_+" else "_") + Digits(n);
    assert key[1..] == (if plus then "+" else "") + Digits(n);
    PlainNumber(n, plus);
  }

  lemma PlainNumber(n: nat, plus: bool)
    requires n < USIZE
    ensures ParseUsize((if plus then "+" else "") + Digits(n)) == Some(n)
  {
    hide Digits, Value;
    ValueOfDigits(n);
    var s := (if plus then "+" else "") + Digits(n);
    assert IsDigit(Digits(n)[0]);
    if plus {
      assert s[1..] == Digits(n);
    } else {
      assert s == Digits(n);
    }
  }

  // ----- one line, as it is written -----

  predicate Plain(s: Bytes, mark: char) { (forall c <- s :: c != mark) && (s != [] ==> s[0] != '"') }

  /** Three columns, the middle one in quotes with a doubled quote and anything
      else in it: the values are what stands between the marks, with one quote. */
  lemma ThreeColumns(a: Bytes, v: Bytes, w: Bytes, b: Bytes)
    requires forall c <- v + w :: c != '"'
    ensures Plain(a, ',') && Plain(b, ',') ==>
              Split(a + ",\"" + v + "\"\"" + w + "\"," + b, Comma) == [a, v + "\"" + w, b]
    ensures Plain(a, '\t') && Plain(b, '\t') ==>
              Split(a + "\t\"" + v + "\"\"" + w + "\"\t" + b, Tab) == [a, v + "\"" + w, b]
  {
    if Plain(a, ',') && Plain(b, ',') {
      MarkedColumns(a, v, w, b, Comma);
      assert a + ",\"" + v + "\"\"" + w + "\"," + b == a + [','] + ("\"" + (v + "\"\"" + w) + "\"") + [','] + b;
    }
    if Plain(a, '\t') && Plain(b, '\t') {
      MarkedColumns(a, v, w, b, Tab);
      assert a + "\t\"" + v + "\"\"" + w + "\"\t" + b
          == a + ['\t'] + ("\"" + (v + "\"\"" + w) + "\"") + ['\t'] + b;
    }
  }

  /** Text behind a closing quote is a column of its own, and a quote that is not
      closed goes on to the end of the line. */
  lemma TornQuotes(v: Bytes, w: Bytes, b: Bytes)
    requires (forall c <- v :: c != '"') && w != [] && Plain(w, ',') && Plain(b, ',')
    ensures Split("\"" + v + "\"" + w + "," + b, Comma) == [v, w, b]
    ensures Split("\"" + v, Comma) == [v]
  {
    hide SplitFrom, ReadQuoted, BareLength, Doubled;
    var rest := w + ([','] + b);
    assert w[0] in w && rest[0] == w[0];
    QuotedThen(v, rest, Comma);
    BareLengthOf(w, [','] + b, Comma);
    BareStepUnfold(rest, Comma, false);
    assert rest[..|w|] == w && rest[|w| + 1..] == b;
    ReadsBareField(b, [], Comma);
    assert b + [] == b && [b] + [] == [b];
    assert "\"" + v + "\"" + w + "," + b == ['"'] + (v + ['"'] + rest);
    assert [v] + ([w] + [b]) == [v, w, b];
    QuotedToEnd(v, Comma);
  }

  lemma QuotedThen(v: Bytes, rest: Bytes, delim: Delim)
    requires (forall c <- v :: c != '"') && rest != [] && rest[0] != '"' && rest[0] != delim.Byte()
    ensures SplitFrom(['"'] + (v + ['"'] + rest), delim, true) == [v] + SplitFrom(rest, delim, false)
  {
    hide ReadQuoted, BareLength, Doubled;
    PlainDoubled(v, []);
    assert v + [] == v && Doubled([]) == [] by { NothingDoubled(); }
    ReadsDoubled(v, rest);
    var s := ['"'] + (v + ['"'] + rest);
    assert s[1..] == v + ['"'] + rest;
  }

  lemma NothingDoubled()
    ensures Doubled([]) == []
  {
  }

  lemma {:induction false} ReadsUnclosed(v: Bytes)
    requires forall c <- v :: c != '"'
    ensures ReadQuoted(v) == (v, [])
  {
    if v != [] {
      assert v[0] in v && forall c <- v[1..] :: c in v;
      ReadsUnclosed(v[1..]);
      assert v == [v[0]] + v[1..];
    }
  }

  lemma QuotedToEnd(v: Bytes, delim: Delim)
    requires forall c <- v :: c != '"'
    ensures SplitFrom("\"" + v, delim, true) == [v]
  {
    hide ReadQuoted, BareLength;
    ReadsUnclosed(v);
    assert ("\"" + v)[1..] == v;
  }

  lemma MarkedColumns(a: Bytes, v: Bytes, w: Bytes, b: Bytes, delim: Delim)
    requires (forall c <- v + w :: c != '"') && Plain(a, delim.Byte()) && Plain(b, delim.Byte())
    ensures Split(a + [delim.Byte()] + ("\"" + (v + "\"\"" + w) + "\"") + [delim.Byte()] + b, delim)
         == [a, v + "\"" + w, b]
  {
    hide Split, Doubled;
    var fields := [Bare(a), Quoted(v + "\"" + w), Bare(b)];
    DoubledText(v, w);
    ThreeTexts(Bare(a), Quoted(v + "\"" + w), Bare(b), delim);
    SplitInvertsEncoding(fields, delim);
    assert Values(fields) == [a, v + "\"" + w, b];
    var text := a + [delim.Byte()] + ("\"" + (v + "\"\"" + w) + "\"") + [delim.Byte()] + b;
    assert RecordText(fields, delim) == text;
  }

  lemma ThreeTexts(x: Field, y: Field, z: Field, delim: Delim)
    ensures RecordText([x, y, z], delim)
         == FieldText(x) + [delim.Byte()] + FieldText(y) + [delim.Byte()] + FieldText(z)
  {
    hide FieldText;
    assert [x, y, z][1..] == [y, z] && [y, z][1..] == [z];
    assert RecordText([y, z], delim) == FieldText(y) + [delim.Byte()] + RecordText([z], delim);
  }

  lemma DoubledText(v: Bytes, w: Bytes)
    requires forall c <- v + w :: c != '"'
    ensures Doubled(v + "\"" + w) == v + "\"\"" + w
  {
    forall c | c in v || c in w ensures c in v + w { }
    assert v + "\"" + w == v + ("\"" + w) && ("\"" + w)[1..] == w;
    PlainDoubled(v, "\"" + w);
    PlainDoubled(w, []);
    assert w + [] == w && Doubled([]) == [];
    assert ['"', '"'] + w == "\"\"" + w;
  }

  lemma {:induction false} PlainDoubled(v: Bytes, rest: Bytes)
    requires forall c <- v :: c != '"'
    ensures Doubled(v + rest) == v + Doubled(rest)
  {
    if v == [] {
      assert v + rest == rest && [] + Doubled(rest) == Doubled(rest);
    } else {
      assert v[0] in v && forall c <- v[1..] :: c in v;
      assert (v + rest)[0] == v[0] && (v + rest)[1..] == v[1..] + rest;
      PlainDoubled(v[1..], rest);
    }
  }

  /** Any other key gives nothing, whatever the line. */
  lemma ProjectsNothing(line: Bytes, delim: Delim, headers: seq<Bytes>, key: Bytes)
    ensures key !in headers && (key == [] || key[0] != '_') ==> ProjectWithHeader(line, delim, headers, key).None?
  {
    hide Split;
  }
}
