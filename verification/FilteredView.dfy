/** The filtered view of a tab: every active filter becomes a predicate, their
    conjunction is scanned, and the matching line ids are what the tab shows. */
module FilteredView {
  import opened Common
  import P = Predicates
  import Q = Query
  import T = PartialTime

  const FATAL: P.Severity := 6

  /** The filters a tab can carry; the severity levels can mean "from the lowest
      one up", and the time range is inclusive at both ends. */
  datatype Filters = Filters(
    regex: Option<string>,
    fields: seq<(string, string)>,
    levels: seq<P.Severity>,
    minMode: bool,
    dsl: Option<string>,
    range: Option<(int, int)>)

  /** The patterns that compile: a line filter is matched on bytes, a pattern in a
      query on text, and the two engines accept different ones. */
  datatype Patterns = Patterns(onBytes: string -> bool, onText: string -> bool)

  predicate Active(f: Filters) {
    f.regex.Some? || f.fields != [] || f.levels != [] || f.dsl.Some? || f.range.Some?
  }

  /** The pattern and the query are ones the system can compile. */
  predicate Accepted(f: Filters, valid: Patterns) {
    (f.regex.Some? ==> valid.onBytes(f.regex.value)) && (f.dsl.Some? ==> Q.Compile(valid.onText, f.dsl.value).Ok?)
  }

  predicate AtLeastOneOf(levels: seq<P.Severity>, s: P.Severity) { exists m <- levels :: m <= s }

  predicate LevelShown(levels: seq<P.Severity>, minMode: bool, s: P.Severity) {
    s in levels || (minMode && s <= FATAL && AtLeastOneOf(levels, s))
  }

  predicate InRange(range: (int, int), ts: int) { ts != TS_UNTIMED && range.0 <= ts <= range.1 }

  /** What all the filters together say about one line. */
  predicate Passes(f: Filters, valid: Patterns, lib: P.Library, rec: P.RawRecord, line: P.Line)
    requires Accepted(f, valid)
  {
    && (f.regex.Some? ==> lib.isMatchBytes(f.regex.value, line.bytes))
    && (forall kv <- f.fields :: P.Project(lib, line, kv.0) == Some(kv.1))
    && (f.levels != [] ==> LevelShown(f.levels, f.minMode, rec.severity))
    && (f.dsl.Some? ==> P.Holds(Q.Compile(valid.onText, f.dsl.value).value, lib, rec, line))
    && (f.range.Some? ==> InRange(f.range.value, rec.ts))
  }

  /** A typed query adds its tree's own meaning to the other filters. */
  lemma PrintedQueryFilters(f: Filters, q: Q.Query, valid: Patterns,
      lib: P.Library, rec: P.RawRecord, line: P.Line)
    requires Accepted(f.(dsl := None), valid) && Q.Writable(valid.onText, q)
    ensures var g := f.(dsl := Some(Q.Print(q)));
            Accepted(g, valid)
            && (Passes(g, valid, lib, rec, line)
                <==> Passes(f.(dsl := None), valid, lib, rec, line) && Q.Means(q, lib, rec, line))
  {
    hide Q.Compile, Q.Print, Q.Means, Q.Writable, P.Holds, P.Project, LevelShown;
    Q.CompilePrinted(valid.onText, q);
  }

  // ----- severities from the lowest one up -----

  method ExpandMin(levels: seq<P.Severity>) returns (out: seq<P.Severity>)
    ensures levels == [] ==> out == []
    ensures forall s :: s in out <==> s in levels || (s <= FATAL && AtLeastOneOf(levels, s))
  {
    if levels == [] { return []; }
    var min := levels[0];
    for i := 1 to |levels|
      invariant min in levels && forall j | 0 <= j < i :: min <= levels[j]
    {
      if levels[i] < min { min := levels[i]; }
    }
    out := [];
    var s: bv8 := min;
    while s <= FATAL
      invariant min <= s <= 7 || s == min
      invariant forall x: P.Severity :: x in out <==> min <= x < s
      decreases 8 - s as int
    {
      out := out + [s];
      s := s + 1;
    }
    ghost var range := out;
    for i := 0 to |levels|
      invariant forall x: P.Severity :: x in out <==> x in range || x in levels[..i]
    {
      assert levels[..i + 1] == levels[..i] + [levels[i]];
      if levels[i] !in out { out := out + [levels[i]]; }
    }
    assert levels[..|levels|] == levels;
    forall x: P.Severity
      ensures x in range <==> x <= FATAL && AtLeastOneOf(levels, x)
    {
      if AtLeastOneOf(levels, x) {
        var m :| m in levels && m <= x;
        assert min <= m;
      }
    }
  }

  // ----- the conjunction -----

  /** Adding a conjunct. */
  lemma AllOfMore(parts: seq<P.Predicate>, p: P.Predicate, lib: P.Library, rec: P.RawRecord, line: P.Line)
    ensures P.Holds(P.And(parts + [p]), lib, rec, line)
        <==> P.Holds(P.And(parts), lib, rec, line) && P.Holds(p, lib, rec, line)
  {
    assert forall q :: q in parts + [p] <==> q in parts || q == p;
  }

  /** `parts` says of every line what `f` says. */
  ghost predicate Composes(parts: seq<P.Predicate>, f: Filters, valid: Patterns)
    requires Accepted(f, valid)
  {
    forall lib: P.Library, rec, line ::
      P.Holds(P.And(parts), lib, rec, line) <==> Passes(f, valid, lib, rec, line)
  }

  /** The predicate of the view: every active filter in turn. */
  method Compose(f: Filters, valid: Patterns) returns (parts: Option<seq<P.Predicate>>)
    ensures parts.Some? <==> Accepted(f, valid)
    ensures parts.Some? ==> Composes(parts.value, f, valid)
  {
    var and: seq<P.Predicate> := [];
    ghost var g := Filters(None, [], [], f.minMode, None, None);
    assert Composes(and, g, valid);
    if f.regex.Some? {
      if !valid.onBytes(f.regex.value) { return None; }
      AddRegex(and, g, f.regex.value, valid);
      and, g := and + [P.RegexBytes(f.regex.value)], g.(regex := f.regex);
    }
    for i := 0 to |f.fields|
      invariant g == Filters(f.regex, f.fields[..i], [], f.minMode, None, None)
      invariant Accepted(g, valid) && Composes(and, g, valid)
    {
      AddField(and, g, f.fields[i], valid);
      assert f.fields[..i + 1] == f.fields[..i] + [f.fields[i]];
      and := and + [P.FieldEquals(f.fields[i].0, f.fields[i].1)];
      g := g.(fields := f.fields[..i + 1]);
    }
    assert f.fields[..|f.fields|] == f.fields;
    if f.levels != [] {
      var effective := f.levels;
      if f.minMode { effective := ExpandMin(f.levels); }
      var p := P.SeverityMask(effective);
      AddLevels(and, g, f.levels, p, effective, valid);
      and, g := and + [p], g.(levels := f.levels);
    }
    if f.dsl.Some? {
      var p := Q.CompileQuery(valid.onText, f.dsl.value);
      if p.Err? { return None; }
      AddQuery(and, g, f.dsl.value, valid);
      and, g := and + [p.value], g.(dsl := f.dsl);
    }
    if f.range.Some? {
      var (lo, hi) := f.range.value;
      AddRange(and, g, f.range.value, valid);
      and := and + [P.TimeRange(lo, P.GreaterEq)] + [P.TimeRange(hi, P.LessEq)];
    }
    parts := Some(and);
  }

  lemma AddRegex(parts: seq<P.Predicate>, g: Filters, pattern: string, valid: Patterns)
    requires Accepted(g, valid) && Composes(parts, g, valid) && g.regex.None? && valid.onBytes(pattern)
    ensures Composes(parts + [P.RegexBytes(pattern)], g.(regex := Some(pattern)), valid)
  {
    hide Q.Compile, P.Project, LevelShown;
    forall lib: P.Library, rec, line
      ensures P.Holds(P.And(parts + [P.RegexBytes(pattern)]), lib, rec, line)
          <==> Passes(g.(regex := Some(pattern)), valid, lib, rec, line)
    {
      AllOfMore(parts, P.RegexBytes(pattern), lib, rec, line);
    }
  }

  lemma AddField(parts: seq<P.Predicate>, g: Filters, kv: (string, string), valid: Patterns)
    requires Accepted(g, valid) && Composes(parts, g, valid)
    ensures Composes(parts + [P.FieldEquals(kv.0, kv.1)], g.(fields := g.fields + [kv]), valid)
  {
    hide Q.Compile, P.Project, LevelShown;
    forall lib: P.Library, rec, line
      ensures P.Holds(P.And(parts + [P.FieldEquals(kv.0, kv.1)]), lib, rec, line)
          <==> Passes(g.(fields := g.fields + [kv]), valid, lib, rec, line)
    {
      AllOfMore(parts, P.FieldEquals(kv.0, kv.1), lib, rec, line);
    }
  }

  lemma AddLevels(parts: seq<P.Predicate>, g: Filters, levels: seq<P.Severity>, p: P.Predicate,
                  effective: seq<P.Severity>, valid: Patterns)
    requires Accepted(g, valid) && Composes(parts, g, valid) && g.levels == [] && levels != []
    requires p.SeverityIn? && forall s: P.Severity :: P.InMask(p.mask, s) <==> s in effective
    requires forall s: P.Severity :: s in effective <==> LevelShown(levels, g.minMode, s)
    ensures Composes(parts + [p], g.(levels := levels), valid)
  {
    hide Q.Compile, P.Project, LevelShown;
    forall lib: P.Library, rec: P.RawRecord, line
      ensures P.Holds(P.And(parts + [p]), lib, rec, line) <==> Passes(g.(levels := levels), valid, lib, rec, line)
    {
      AllOfMore(parts, p, lib, rec, line);
      assert P.InMask(p.mask, rec.severity) <==> rec.severity in effective;
    }
  }

  lemma AddQuery(parts: seq<P.Predicate>, g: Filters, source: string, valid: Patterns)
    requires Accepted(g, valid) && Composes(parts, g, valid) && g.dsl.None? && Q.Compile(valid.onText, source).Ok?
    ensures Composes(parts + [Q.Compile(valid.onText, source).value], g.(dsl := Some(source)), valid)
  {
    hide Q.Compile, P.Project, LevelShown;
    var p := Q.Compile(valid.onText, source).value;
    forall lib: P.Library, rec, line
      ensures P.Holds(P.And(parts + [p]), lib, rec, line) <==> Passes(g.(dsl := Some(source)), valid, lib, rec, line)
    {
      AllOfMore(parts, p, lib, rec, line);
    }
  }

  lemma AddRange(parts: seq<P.Predicate>, g: Filters, range: (int, int), valid: Patterns)
    requires Accepted(g, valid) && Composes(parts, g, valid) && g.range.None?
    ensures Composes(parts + [P.TimeRange(range.0, P.GreaterEq)] + [P.TimeRange(range.1, P.LessEq)],
                     g.(range := Some(range)), valid)
  {
    hide Q.Compile, P.Project, LevelShown;
    var from, to := P.TimeRange(range.0, P.GreaterEq), P.TimeRange(range.1, P.LessEq);
    forall lib: P.Library, rec: P.RawRecord, line
      ensures P.Holds(P.And(parts + [from] + [to]), lib, rec, line)
          <==> Passes(g.(range := Some(range)), valid, lib, rec, line)
    {
      AllOfMore(parts, from, lib, rec, line);
      AllOfMore(parts + [from], to, lib, rec, line);
    }
  }

  // ----- the view -----

  /** Exactly the lines that pass, in file order. */
  ghost predicate Shows(view: seq<nat>, f: Filters, valid: Patterns, lib: P.Library, engine: P.Engine)
    requires Accepted(f, valid)
  {
    P.StrictlyAscending(view)
    && forall id: nat :: id in view <==>
         id < |engine.lines| && Passes(f, valid, lib, engine.RecordAt(id), engine.LineAt(id))
  }

  /** What is shown, over the indexed columns: a line whose bytes match the
      pattern, selected by every field and by the query, of a level listed or, in
      minimum mode, not below the lowest one listed, and with a time from the first
      bound to the last, both included. */
  lemma ShownLines(view: seq<nat>, f: Filters, valid: Patterns, lib: P.Library, engine: P.Engine, id: nat)
    requires Accepted(f, valid) && Shows(view, f, valid, lib, engine)
    ensures id in view <==>
      id < |engine.lines|
      && var x := engine.lines[id];
      && (f.regex.Some? ==> lib.isMatchBytes(f.regex.value, x.bytes))
      && (forall kv <- f.fields :: engine.Selected(P.FieldEquals(kv.0, kv.1), lib, id))
      && (f.levels != [] ==>
            var s := if x.severity.Some? then x.severity.value else 0;
            s in f.levels || (f.minMode && s <= 6 && exists m <- f.levels :: m <= s))
      && (f.dsl.Some? ==> engine.Selected(Q.Compile(valid.onText, f.dsl.value).value, lib, id))
      && (f.range.Some? ==>
            x.ts.Some? && x.ts.value != TS_UNTIMED && f.range.value.0 <= x.ts.value <= f.range.value.1)
  {
    hide P.Project, Q.Compile;
  }

  /** Text typed with space around it sets the filter to the text alone. */
  lemma TypedWithSpace(before: string, text: string, after: string)
    requires T.AllTrimmed(before) && T.AllTrimmed(after) && T.Bounded(text)
    ensures Q.TrimEnd(Q.TrimStart(before + text + after)) == text
  {
    T.TrimmedCore(before, text, after);
  }

  class View {
    var filters: Filters
    var filteredView: seq<nat>
    var generation: nat

    constructor ()
      ensures filters == Filters(None, [], [], false, None, None) && filteredView == [] && generation == 0
    {
      filters := Filters(None, [], [], false, None, None);
      filteredView, generation := [], 0;
    }

    /** A pattern or a query that does not compile leaves the old view. */
    method RebuildView(engine: P.Engine, lib: P.Library, valid: Patterns)
      modifies this`filteredView, this`generation
      ensures Accepted(filters, valid) ==>
                Shows(filteredView, filters, valid, lib, engine)
                && generation == (old(generation) + 1) % 0x1_0000_0000_0000_0000
      ensures !Accepted(filters, valid) ==> filteredView == old(filteredView) && generation == old(generation)
    {
      hide Passes, P.Holds, Q.Compile;
      if !Active(filters) {
        filteredView := seq(|engine.lines|, i => i);
        NoFilterShowsAll(filteredView, filters, valid, lib, engine);
      } else {
        var parts := Compose(filters, valid);
        if parts.None? { return; }
        filteredView := P.Scan(engine, P.And(parts.value), lib);
        ScanShows(filteredView, parts.value, filters, valid, lib, engine);
      }
      generation := (generation + 1) % 0x1_0000_0000_0000_0000;
    }

    /** An empty query clears the slot, and one that does not compile changes
        nothing at all. */
    method SetDsl(source: string, engine: P.Engine, lib: P.Library, valid: Patterns)
      modifies this
      ensures var text := Q.TrimEnd(Q.TrimStart(source));
              filters == if text != "" && Q.Compile(valid.onText, text).Err? then old(filters)
                         else old(filters).(dsl := if text == "" then None else Some(text))
      ensures var text := Q.TrimEnd(Q.TrimStart(source));
              if text != "" && Q.Compile(valid.onText, text).Err? then
                filteredView == old(filteredView) && generation == old(generation)
              else
                Accepted(filters, valid) ==> Shows(filteredView, filters, valid, lib, engine)
    {
      hide Q.Compile, Q.TrimEnd, Q.TrimStart, Shows, Accepted;
      var trimmed := Q.TrimEnd(Q.TrimStart(source));
      if trimmed == "" {
        filters := filters.(dsl := None);
        RebuildView(engine, lib, valid);
        return;
      }
      var p := Q.CompileQuery(valid.onText, trimmed);
      if p.Ok? {
        filters := filters.(dsl := Some(trimmed));
        RebuildView(engine, lib, valid);
      }
    }
  }

  lemma NoFilterShowsAll(view: seq<nat>, f: Filters, valid: Patterns, lib: P.Library, engine: P.Engine)
    requires !Active(f) && |view| == |engine.lines| && forall i | 0 <= i < |view| :: view[i] == i
    ensures Accepted(f, valid) && Shows(view, f, valid, lib, engine)
  {
    hide P.Holds, Q.Compile;
    forall id: nat | id < |engine.lines| ensures id in view { assert view[id] == id; }
  }

  lemma ScanShows(view: seq<nat>, parts: seq<P.Predicate>, f: Filters, valid: Patterns,
                  lib: P.Library, engine: P.Engine)
    requires Accepted(f, valid) && Composes(parts, f, valid) && P.StrictlyAscending(view)
    requires forall id: nat :: id in view <==> engine.Selected(P.And(parts), lib, id)
    ensures Shows(view, f, valid, lib, engine)
  {
    hide Passes, P.Holds, Q.Compile;
    forall id: nat
      ensures id in view
          <==> id < |engine.lines| && Passes(f, valid, lib, engine.RecordAt(id), engine.LineAt(id))
    {
      assert id in view <==> engine.Selected(P.And(parts), lib, id);
      if id < |engine.lines| {
        assert P.Holds(P.And(parts), lib, engine.RecordAt(id), engine.LineAt(id))
           <==> Passes(f, valid, lib, engine.RecordAt(id), engine.LineAt(id));
      }
    }
  }
}
