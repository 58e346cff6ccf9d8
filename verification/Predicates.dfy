/** The predicate machine: predicate trees, the per-record field cache they read
    through, and the scan over the index. */
module Predicates {
  import opened Common
  import Csv
  import Decimal
  import Syslog

  // ----- formats, records and the parts of the system taken as given -----

  datatype LogFormat =
    | Ndjson | Logfmt | Edn | Python | Syslog | Csv | Tsv | Access | Logback | Journalctl | Regex | Plain

  /** The two regex engines, on lines of bytes and on field text, and the line
      parsers that are not modelled here. */
  datatype Library = Library(
    isMatchBytes: (string, Bytes) -> bool,
    isMatch: (string, Bytes) -> bool,
    captures: (string, Bytes, string) -> Option<Bytes>,
    project: (LogFormat, Bytes, string) -> Option<Bytes>)

  /** One line with what its source attaches to it. */
  datatype Line = Line(format: LogFormat, bytes: Bytes, headers: Option<seq<Bytes>>, regex: Option<string>)

  /** The severity byte; the enum has seven values and a shift of eight panics. */
  type Severity = s: bv8 | s < 8

  datatype RawRecord = RawRecord(source: nat, lineId: nat, ts: int, severity: Severity)

  /** The value of a field by direct projection, without any cache. */
  function Project(lib: Library, line: Line, key: string): Option<Bytes> {
    match line.format
    case Csv => if line.headers.Some? then Csv.ProjectWithHeader(line.bytes, Csv.Comma, line.headers.value, key)
                else None
    case Tsv => if line.headers.Some? then Csv.ProjectWithHeader(line.bytes, Csv.Tab, line.headers.value, key) else None
    case Regex => if line.regex.Some? then lib.captures(line.regex.value, line.bytes, key) else None
    case Syslog => Syslog.ProjectField(line.bytes, key)
    case _ => lib.project(line.format, line.bytes, key)
  }

  // ----- what a line of each format gives -----

  /** A syslog line that prints a well-formed message answers from its parts. */
  lemma SyslogLine(lib: Library, line: Line, m: Syslog.Message, key: string)
    requires line.format.Syslog? && Syslog.WellFormed(m) && line.bytes == Syslog.Print(m)
    ensures Project(lib, line, key) == Syslog.Answer(m, key)
  {
    hide Syslog.ProjectField, Syslog.Answer, Syslog.Print, Syslog.WellFormed;
    Syslog.ProjectsAnswer(m, key);
  }

  /** A record of a separated format, with headers attached, answers a header name
      with the value of the first such column, `_n` with the n-th value, and nothing
      else. */
  lemma SeparatedLine(lib: Library, line: Line, delim: Csv.Delim, fields: seq<Csv.Field>, headers: seq<Bytes>,
      key: string)
    requires line.format == (if delim.Comma? then Csv else Tsv) && line.headers == Some(headers)
    requires fields != [] && forall f | f in fields :: Csv.WellFormed(f, delim)
    requires line.bytes == Csv.RecordText(fields, delim)
    ensures forall i | 0 <= i < |headers| && headers[i] == key && key !in headers[..i] ::
              Project(lib, line, key) == if i < |fields| then Some(fields[i].value) else None
    ensures forall n: nat | 1 <= n < Csv.USIZE && key == ['_'] + Decimal.Digits(n) && key !in headers ::
              Project(lib, line, key) == if n <= |fields| then Some(fields[n - 1].value) else None
    ensures key !in headers && (key == [] || key[0] != '_') ==> Project(lib, line, key).None?
  {
    hide Csv.RecordText, Csv.WellFormed, Csv.ProjectWithHeader, Decimal.Digits;
    assert Project(lib, line, key) == Csv.ProjectWithHeader(line.bytes, delim, headers, key);
    forall i | 0 <= i < |headers| && headers[i] == key && key !in headers[..i]
      ensures Project(lib, line, key) == if i < |fields| then Some(fields[i].value) else None
    {
      Csv.ProjectsNamedColumn(fields, delim, headers, i);
    }
    forall n: nat | 1 <= n < Csv.USIZE && key == ['_'] + Decimal.Digits(n) && key !in headers
      ensures Project(lib, line, key) == if n <= |fields| then Some(fields[n - 1].value) else None
    {
      Csv.ProjectsPosition(fields, delim, headers, n, false);
    }
    Csv.ProjectsNothing(line.bytes, delim, headers, key);
  }

  /** A separated line without headers, and a line of a pattern source without its
      pattern, answer nothing; with it, the captured group. */
  lemma UnattachedLine(lib: Library, line: Line, key: string)
    ensures (line.format.Csv? || line.format.Tsv?) && line.headers.None? ==> Project(lib, line, key).None?
    ensures line.format.Regex? ==>
              Project(lib, line, key)
              == if line.regex.None? then None else lib.captures(line.regex.value, line.bytes, key)
  {
  }

  /** Every other format answers with its own parser. */
  lemma OwnParserLine(lib: Library, line: Line, key: string)
    requires line.format in {Ndjson, Logfmt, Edn, Python, Access, Logback, Journalctl, Plain}
    ensures Project(lib, line, key) == lib.project(line.format, line.bytes, key)
  {
  }

  // ----- predicate trees and their meaning -----

  datatype TimeCmp = Greater | GreaterEq | Less | LessEq

  datatype Predicate =
    | RegexBytes(pattern: string)
    | FieldEquals(field: string, value: string)
    | FieldRegex(field: string, pattern: string)
    | Not(inner: Predicate)
    | TimeRange(bound: int, cmp: TimeCmp)
    | SeverityIn(mask: bv8)
    | And(parts: seq<Predicate>)
    | Or(parts: seq<Predicate>)

  predicate Compare(cmp: TimeCmp, ts: int, bound: int) {
    match cmp
    case Greater => ts > bound
    case GreaterEq => ts >= bound
    case Less => ts < bound
    case LessEq => ts <= bound
  }

  /** The verdict a tree stands for, by direct projection of every field. */
  predicate Holds(p: Predicate, lib: Library, rec: RawRecord, line: Line) {
    match p
    case RegexBytes(pattern) => lib.isMatchBytes(pattern, line.bytes)
    case FieldEquals(field, value) => Project(lib, line, field) == Some(value)
    case FieldRegex(field, pattern) =>
      var v := Project(lib, line, field);
      v.Some? && lib.isMatch(pattern, v.value)
    case Not(inner) => !Holds(inner, lib, rec, line)
    case TimeRange(bound, cmp) => rec.ts != TS_UNTIMED && Compare(cmp, rec.ts, bound)
    case SeverityIn(mask) => (mask >> rec.severity) & 1 == 1
    case And(parts) => forall q | q in parts :: Holds(q, lib, rec, line)
    case Or(parts) => exists q | q in parts :: Holds(q, lib, rec, line)
  }

  // ----- the severity mask -----

  predicate InMask(mask: bv8, s: Severity) { (mask >> s) & 1 == 1 }

  lemma SetBit(mask: bv8, level: Severity, s: Severity)
    ensures InMask(mask | (1 << level), s) <==> s == level || InMask(mask, s)
  {
  }

  /** `SeverityInPredicate::new`: the predicate keeps exactly the given levels. */
  method SeverityMask(levels: seq<Severity>) returns (p: Predicate)
    ensures p.SeverityIn?
    ensures forall s: Severity :: InMask(p.mask, s) <==> s in levels
  {
    var mask: bv8 := 0;
    for i := 0 to |levels|
      invariant forall s: Severity :: InMask(mask, s) <==> s in levels[..i]
    {
      var wider := mask | (1 << levels[i]);
      assert levels[..i + 1] == levels[..i] + [levels[i]];
      forall s: Severity
        ensures InMask(wider, s) <==> s in levels[..i + 1]
      {
        SetBit(mask, levels[i], s);
      }
      mask := wider;
    }
    assert levels[..|levels|] == levels;
    p := SeverityIn(mask);
  }

  // ----- the field cache -----

  class FieldCache {
    var line: Line
    var cache: map<string, Option<Bytes>>

    /** Every remembered value is the one direct projection gives. */
    ghost predicate Faithful(lib: Library)
      reads this
    {
      forall k | k in cache :: cache[k] == Project(lib, line, k)
    }

    constructor (line: Line)
      ensures this.line == line && cache == map[]
    {
      this.line := line;
      cache := map[];
    }

    /** The first call for a key parses; later ones hit the memo. */
    method Get(lib: Library, key: string) returns (v: Option<Bytes>)
      requires Faithful(lib)
      modifies this`cache
      ensures v == Project(lib, line, key)
      ensures Faithful(lib) && cache.Keys == old(cache).Keys + {key}
    {
      if key !in cache {
        var parsed :=
          match line.format
          case Csv =>
            (match line.headers
             case Some(h) => Csv.ProjectWithHeader(line.bytes, Csv.Comma, h, key)
             case None => None)
          case Tsv =>
            (match line.headers
             case Some(h) => Csv.ProjectWithHeader(line.bytes, Csv.Tab, h, key)
             case None => None)
          case Regex => (match line.regex case Some(re) => lib.captures(re, line.bytes, key) case None => None)
          case Syslog => Syslog.ProjectField(line.bytes, key)
          case _ => lib.project(line.format, line.bytes, key);
        cache := cache[key := parsed];
      }
      v := cache[key];
    }

    /** Between records: new bytes, nothing remembered. */
    method Reset(bytes: Bytes)
      modifies this
      ensures line == old(line).(bytes := bytes) && cache == map[]
    {
      line := line.(bytes := bytes);
      cache := map[];
    }
  }

  /** `Predicate::matches`: whatever earlier predicates left in the cache, and
      whatever short-circuiting skips, the verdict is the tree's meaning. */
  method Matches(p: Predicate, lib: Library, rec: RawRecord, cache: FieldCache) returns (b: bool)
    requires cache.Faithful(lib)
    modifies cache`cache
    ensures cache.Faithful(lib)
    ensures b == Holds(p, lib, rec, cache.line)
    decreases p, 1
  {
    match p {
      case RegexBytes(pattern) => b := lib.isMatchBytes(pattern, cache.line.bytes);
      case FieldEquals(field, value) =>
        var v := cache.Get(lib, field);
        b := v == Some(value);
      case FieldRegex(field, pattern) =>
        var v := cache.Get(lib, field);
        b := match v case Some(x) => lib.isMatch(pattern, x) case None => false;
      case Not(inner) =>
        var r := Matches(inner, lib, rec, cache);
        b := !r;
      case TimeRange(bound, cmp) => b := rec.ts != TS_UNTIMED && Compare(cmp, rec.ts, bound);
      case SeverityIn(mask) => b := (mask >> rec.severity) & 1 == 1;
      case And(parts) =>
        var stop := FirstWith(p, parts, false, lib, rec, cache);
        b := stop == |parts|;
      case Or(parts) =>
        var stop := FirstWith(p, parts, true, lib, rec, cache);
        b := stop < |parts|;
    }
  }

  /** The short-circuit of `all` and `any`: parts after the first one with the
      deciding verdict are not evaluated. */
  method FirstWith(p: Predicate, parts: seq<Predicate>, verdict: bool, lib: Library, rec: RawRecord, cache: FieldCache)
    returns (stop: nat)
    requires (p.And? || p.Or?) && p.parts == parts
    requires cache.Faithful(lib)
    modifies cache`cache
    ensures cache.Faithful(lib)
    ensures stop <= |parts|
    ensures forall k | 0 <= k < stop :: Holds(parts[k], lib, rec, cache.line) != verdict
    ensures stop < |parts| ==> Holds(parts[stop], lib, rec, cache.line) == verdict
    decreases p, 0
  {
    stop := 0;
    while stop < |parts|
      invariant stop <= |parts| && cache.Faithful(lib)
      invariant forall k | 0 <= k < stop :: Holds(parts[k], lib, rec, cache.line) != verdict
    {
      var r := Matches(parts[stop], lib, rec, cache);
      if r == verdict { return; }
      stop := stop + 1;
    }
  }

  // ----- the scan -----

  /** One indexed line; the time and severity columns may be shorter than the
      line column. */
  datatype Indexed = Indexed(source: nat, bytes: Bytes, ts: Option<int>, severity: Option<Severity>)

  datatype Engine = Engine(lines: seq<Indexed>, formats: seq<LogFormat>) {
    function FormatOf(source: nat): LogFormat {
      if source < |formats| then formats[source] else Ndjson
    }

    /** `synth_record`. */
    function RecordAt(id: nat): RawRecord
      requires id < |lines|
    {
      var l := lines[id];
      RawRecord(l.source, id, if l.ts.Some? then l.ts.value else TS_UNTIMED,
                if l.severity.Some? then l.severity.value else 0)
    }

    /** The scan attaches neither headers nor a pattern. */
    function LineAt(id: nat): Line
      requires id < |lines|
    {
      Line(FormatOf(lines[id].source), lines[id].bytes, None, None)
    }

    predicate Selected(p: Predicate, lib: Library, id: nat) {
      id < |lines| && Holds(p, lib, RecordAt(id), LineAt(id))
    }
  }

  // ----- what selects a line -----

  /** A field of a syslog line that prints a message: selected exactly when the
      message answers with that value. */
  lemma SelectsSyslogField(engine: Engine, lib: Library, id: nat, m: Syslog.Message, key: string, v: string)
    requires id < |engine.lines| && engine.lines[id].source < |engine.formats|
    requires engine.formats[engine.lines[id].source] == Syslog
    requires Syslog.WellFormed(m) && engine.lines[id].bytes == Syslog.Print(m)
    ensures engine.Selected(FieldEquals(key, v), lib, id) <==> Syslog.Answer(m, key) == Some(v)
  {
    hide Project, Syslog.Answer, Syslog.Print, Syslog.WellFormed;
    SyslogLine(lib, engine.LineAt(id), m, key);
  }

  /** The scan attaches no headers and no pattern, so such lines have no fields;
      lines of the formats with parsers of their own have theirs. */
  lemma SelectsOtherField(engine: Engine, lib: Library, id: nat, key: string, v: string)
    requires id < |engine.lines|
    ensures var source := engine.lines[id].source;
            var format := if source < |engine.formats| then engine.formats[source] else Ndjson;
            (format in {Csv, Tsv, Regex} ==> !engine.Selected(FieldEquals(key, v), lib, id))
            && (format in {Ndjson, Logfmt, Edn, Python, Access, Logback, Journalctl, Plain} ==>
                  (engine.Selected(FieldEquals(key, v), lib, id)
                   <==> lib.project(format, engine.lines[id].bytes, key) == Some(v)))
  {
    hide Project;
    var line := engine.LineAt(id);
    UnattachedLine(lib, line, key);
    if line.format in {Ndjson, Logfmt, Edn, Python, Access, Logback, Journalctl, Plain} {
      OwnParserLine(lib, line, key);
    }
  }

  /** A comparison of times selects the lines whose entry in the time column is a
      time and compares so; lines beyond the column, or untimed, never. */
  lemma SelectsByTime(engine: Engine, lib: Library, id: nat, bound: int)
    requires id < |engine.lines|
    ensures var ts := engine.lines[id].ts;
            var timed := ts.Some? && ts.value != TS_UNTIMED;
            (engine.Selected(TimeRange(bound, Greater), lib, id) <==> timed && ts.value > bound)
            && (engine.Selected(TimeRange(bound, GreaterEq), lib, id) <==> timed && ts.value >= bound)
            && (engine.Selected(TimeRange(bound, Less), lib, id) <==> timed && ts.value < bound)
            && (engine.Selected(TimeRange(bound, LessEq), lib, id) <==> timed && ts.value <= bound)
  {
  }

  /** A severity filter selects the lines whose entry in the severity column is one
      of the levels, and those beyond the column when level 0 is. */
  lemma SelectsBySeverity(engine: Engine, lib: Library, id: nat, mask: bv8, levels: seq<Severity>)
    requires id < |engine.lines| && forall s: Severity :: InMask(mask, s) <==> s in levels
    ensures engine.Selected(SeverityIn(mask), lib, id)
       <==> (match engine.lines[id].severity case Some(s) => s in levels case None => 0 in levels)
  {
    assert InMask(mask, engine.RecordAt(id).severity) <==> engine.RecordAt(id).severity in levels;
  }

  /** A pattern on the line selects by its bytes alone. */
  lemma SelectsByBytes(engine: Engine, lib: Library, id: nat, pattern: string)
    requires id < |engine.lines|
    ensures engine.Selected(RegexBytes(pattern), lib, id) <==> lib.isMatchBytes(pattern, engine.lines[id].bytes)
  {
  }

  predicate StrictlyAscending(s: seq<nat>) { forall i, j | 0 <= i < j < |s| :: s[i] < s[j] }

  lemma EmptyAscends()
    ensures StrictlyAscending([])
  {
  }

  lemma AscendingSnoc(s: seq<nat>, id: nat)
    requires StrictlyAscending(s) && forall m | m in s :: m < id
    ensures StrictlyAscending(s + [id])
  {
    assert forall k | 0 <= k < |s| :: s[k] in s;
  }

  /** `scan`: exactly the ids of the lines the predicate holds of, ascending,
      across format switches that replace the cache and resets that reuse it. */
  method Scan(engine: Engine, p: Predicate, lib: Library) returns (matches: seq<nat>)
    ensures StrictlyAscending(matches)
    ensures forall id: nat :: id in matches <==> engine.Selected(p, lib, id)
  {
    hide StrictlyAscending, Holds;
    matches := [];
    EmptyAscends();
    var total := |engine.lines|;
    if total == 0 { return; }
    var cache := new FieldCache(engine.LineAt(0));
    for id := 0 to total
      invariant fresh(cache)
      invariant cache.line.headers.None? && cache.line.regex.None?
      invariant StrictlyAscending(matches)
      invariant forall m | m in matches :: m < id
      invariant forall k: nat :: k in matches <==> k < id && engine.Selected(p, lib, k)
    {
      var rec := engine.RecordAt(id);
      var bytes := engine.lines[id].bytes;
      var format := engine.FormatOf(rec.source);
      if format != cache.line.format {
        cache := new FieldCache(Line(format, bytes, None, None));
      } else {
        cache.Reset(bytes);
      }
      assert cache.line == engine.LineAt(id);
      var hit := Matches(p, lib, rec, cache);
      if hit {
        AscendingSnoc(matches, id);
        matches := matches + [id];
      }
    }
  }
}
