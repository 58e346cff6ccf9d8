/** The query language: tokens, the recursive-descent parser that compiles a
    one-line expression into a predicate tree, and its grammar. */
module Query {
  import opened Common
  import P = Predicates
  import Rfc3339

  datatype Op = Eq | Ne | Regex | Gt | Ge | Lt | Le

  datatype Error =
    | EmptyQuery | TrailingInput | ExpectedClose | KeywordAsField | ExpectedField
    | ExpectedOperator | ExpectedValue | BadRegex | ComparisonOnNonTs | BadTimestamp

  // ----- characters -----

  /** `is_ascii_whitespace`. */
  predicate IsSpace(c: char) { c == ' ' || c == '\t' || c == '\n' || c == '\r' || c as int == 12 }

  /** What `trim` removes: on ASCII, also the vertical tab. */
  predicate IsTrimmed(c: char) { IsSpace(c) || c as int == 11 }

  predicate IsAlpha(c: char) { 'a' <= c <= 'z' || 'A' <= c <= 'Z' }

  predicate IsFieldChar(c: char) {
    IsAlpha(c) || IsDigit(c) || c == '_' || c == '.' || c == '@' || c == '-'
  }

  // ----- tokens, as functions on the rest of the input -----

  function SkipWs(s: string): (r: string)
    ensures |r| <= |s| && (r != [] ==> !IsSpace(r[0]))
  {
    if s != [] && IsSpace(s[0]) then SkipWs(s[1..]) else s
  }

  function TrimStart(s: string): (r: string)
    ensures |r| <= |s|
  {
    if s != [] && IsTrimmed(s[0]) then TrimStart(s[1..]) else s
  }

  function TrimEnd(s: string): string {
    if s != [] && IsTrimmed(s[|s| - 1]) then TrimEnd(s[..|s| - 1]) else s
  }

  function AlphaRun(s: string): (n: nat)
    ensures n <= |s|
  {
    if s != [] && IsAlpha(s[0]) then 1 + AlphaRun(s[1..]) else 0
  }

  function FieldRun(s: string): (n: nat)
    ensures n <= |s|
  {
    if s != [] && IsFieldChar(s[0]) then 1 + FieldRun(s[1..]) else 0
  }

  /** The next alphabetic run, not consumed; empty when there is none. */
  function PeekKw(s: string): (kw: string)
    ensures |kw| <= |TrimStart(s)| && (kw != [] ==> kw <= TrimStart(s))
  {
    var r := TrimStart(s);
    r[..AlphaRun(r)]
  }

  function ConsumeKw(s: string, kw: string): (r: string)
    requires kw != [] && PeekKw(s) == kw
    ensures |r| < |s|
  {
    TrimmedIsShorter(s);
    SkipWs(SkipWs(s)[|kw|..])
  }

  predicate IsKeyword(kw: string) { kw == "AND" || kw == "OR" || kw == "NOT" }

  function ReadField(s: string): (r: Result<(string, string), Error>)
    ensures r.Ok? ==> |r.value.1| < |s|
  {
    var t := SkipWs(s);
    if IsKeyword(PeekKw(t)) then Err(KeywordAsField) else
    var n := FieldRun(t);
    if n == 0 then Err(ExpectedField) else Ok((t[..n], t[n..]))
  }

  function ReadOp(s: string): (r: Result<(Op, string), Error>)
    ensures r.Ok? ==> |r.value.1| < |s|
  {
    var t := SkipWs(s);
    if t == [] then Err(ExpectedOperator)
    else if t[0] == '=' then Ok((Eq, t[1..]))
    else if t[0] == '~' then Ok((Regex, t[1..]))
    else if t[0] == '!' && |t| > 1 && t[1] == '=' then Ok((Ne, t[2..]))
    else if t[0] == '>' && |t| > 1 && t[1] == '=' then Ok((Ge, t[2..]))
    else if t[0] == '<' && |t| > 1 && t[1] == '=' then Ok((Le, t[2..]))
    else if t[0] == '>' then Ok((Gt, t[1..]))
    else if t[0] == '<' then Ok((Lt, t[1..]))
    else Err(ExpectedOperator)
  }

  /** Length up to the closing mark; a backslash takes the next character along. */
  function DelimitedLength(s: string, mark: char): (n: nat)
    ensures n <= |s|
  {
    if s == [] || s[0] == mark then 0
    else if s[0] == '\\' && |s| > 1 then 2 + DelimitedLength(s[2..], mark)
    else 1 + DelimitedLength(s[1..], mark)
  }

  function ReadDelimited(s: string, mark: char): (r: (string, string))
    ensures |r.1| <= |s|
  {
    var n := DelimitedLength(s, mark);
    (s[..n], if n < |s| then s[n + 1..] else [])
  }

  function BareLength(s: string): (n: nat)
    ensures n <= |s|
  {
    if s == [] || IsSpace(s[0]) || s[0] == ')' then 0 else 1 + BareLength(s[1..])
  }

  function ReadValue(s: string, op: Op): (r: Result<(string, string), Error>)
    ensures r.Ok? ==> |r.value.1| <= |s|
  {
    var t := SkipWs(s);
    if t == [] then Err(ExpectedValue)
    else if op.Regex? && t[0] == '/' then Ok(ReadDelimited(t[1..], '/'))
    else if t[0] == '"' then Ok(ReadDelimited(t[1..], '"'))
    else
      var n := BareLength(t);
      Ok((t[..n], t[n..]))
  }

  lemma {:induction false} TrimmedIsShorter(s: string)
    ensures |TrimStart(s)| <= |SkipWs(s)|
    ensures TrimStart(SkipWs(s)) == TrimStart(s)
  {
    if s != [] && IsSpace(s[0]) {
      TrimmedIsShorter(s[1..]);
    }
  }

  // ----- clauses -----

  /** `parse_partial_rfc3339`: pad a prefix of a timestamp to a full one. */
  function ParsePartial(v: string): Option<int> {
    var s := TrimEnd(TrimStart(v));
    var padded :=
      if |s| == 4 then s + "-01-01T00:00:00Z"
      else if |s| == 7 then s + "-01T00:00:00Z"
      else if |s| == 10 then s + "T00:00:00Z"
      else if |s| == 13 then s + ":00:00Z"
      else if |s| == 16 then s + ":00Z"
      else if |s| == 19 then s + "Z"
      else s;
    Rfc3339.ParseRfc3339(padded)
  }

  /** `build_predicate`; `valid` says which patterns the regex engine accepts. */
  function BuildPredicate(valid: string -> bool, field: string, op: Op, value: string): Result<P.Predicate, Error> {
    match op
    case Eq => Ok(P.FieldEquals(field, value))
    case Ne => Ok(P.Not(P.FieldEquals(field, value)))
    case Regex => if valid(value) then Ok(P.FieldRegex(field, value)) else Err(BadRegex)
    case _ =>
      if field != "ts" then Err(ComparisonOnNonTs) else
      match ParsePartial(value)
      case None => Err(BadTimestamp)
      case Some(ts) =>
        Ok(P.TimeRange(ts,
          if op.Gt? then P.Greater else if op.Ge? then P.GreaterEq else if op.Lt? then P.Less else P.LessEq))
  }

  function ParseClause(valid: string -> bool, s: string): (r: Result<(P.Predicate, string), Error>)
    ensures r.Ok? ==> |r.value.1| < |s|
  {
    var (field, s1) :- ReadField(s);
    var (op, s2) :- ReadOp(s1);
    var (value, s3) :- ReadValue(s2, op);
    var p :- BuildPredicate(valid, field, op, value);
    Ok((p, s3))
  }

  // ----- the parser -----

  type Parsed = Result<(P.Predicate, string), Error>
  type ParsedList = Result<(seq<P.Predicate>, string), Error>

  function Prepend(parts: seq<P.Predicate>, r: ParsedList): ParsedList {
    match r
    case Ok((more, rest)) => Ok((parts + more, rest))
    case Err(e) => Err(e)
  }

  /** One part stands for itself; several become one node. */
  function OrOf(parts: seq<P.Predicate>): P.Predicate
    requires parts != []
  {
    if |parts| == 1 then parts[0] else P.Or(parts)
  }

  function AndOf(parts: seq<P.Predicate>): P.Predicate
    requires parts != []
  {
    if |parts| == 1 then parts[0] else P.And(parts)
  }

  function ParseOr(valid: string -> bool, s: string): (r: Parsed)
    ensures r.Ok? ==> |r.value.1| < |s|
    decreases |s|, 5
  {
    var (parts, rest) :- ParseOrItems(valid, s);
    Ok((OrOf(parts), rest))
  }

  function ParseOrItems(valid: string -> bool, s: string): (r: ParsedList)
    ensures r.Ok? ==> r.value.0 != [] && |r.value.1| < |s|
    decreases |s|, 4
  {
    var (first, rest) :- ParseAnd(valid, s);
    Prepend([first], if PeekKw(rest) == "OR" then ParseOrItems(valid, ConsumeKw(rest, "OR")) else Ok(([], rest)))
  }

  function ParseAnd(valid: string -> bool, s: string): (r: Parsed)
    ensures r.Ok? ==> |r.value.1| < |s|
    decreases |s|, 3
  {
    var (parts, rest) :- ParseAndItems(valid, s);
    Ok((AndOf(parts), rest))
  }

  function ParseAndItems(valid: string -> bool, s: string): (r: ParsedList)
    ensures r.Ok? ==> r.value.0 != [] && |r.value.1| < |s|
    decreases |s|, 2
  {
    var (first, rest) :- ParseUnary(valid, s);
    Prepend([first], if PeekKw(rest) == "AND" then ParseAndItems(valid, ConsumeKw(rest, "AND")) else Ok(([], rest)))
  }

  function ParseUnary(valid: string -> bool, s: string): (r: Parsed)
    ensures r.Ok? ==> |r.value.1| < |s|
    decreases |s|, 1
  {
    if PeekKw(s) == "NOT" then
      var (inner, rest) :- ParseUnary(valid, ConsumeKw(s, "NOT"));
      Ok((P.Not(inner), rest))
    else ParseAtom(valid, s)
  }

  function ParseAtom(valid: string -> bool, s: string): (r: Parsed)
    ensures r.Ok? ==> |r.value.1| < |s|
    decreases |s|, 0
  {
    var t := SkipWs(s);
    if t != [] && t[0] == '(' then
      var (inner, rest) :- ParseOr(valid, SkipWs(t[1..]));
      var u := SkipWs(rest);
      if u == [] || u[0] != ')' then Err(ExpectedClose) else Ok((inner, SkipWs(u[1..])))
    else ParseClause(valid, t)
  }

  /** `compile`: the whole input must be one expression. */
  function Compile(valid: string -> bool, source: string): Result<P.Predicate, Error> {
    var s := SkipWs(source);
    if s == [] then Err(EmptyQuery) else
    var (p, rest) :- ParseOr(valid, s);
    if SkipWs(rest) != [] then Err(TrailingInput) else Ok(p)
  }

  // ----- query trees, their meaning and their printed form -----

  /** A value as written: bare, in quotes, or between slashes. */
  datatype Literal = Bare(text: string) | Quoted(text: string) | Slashed(text: string)

  datatype Query =
    | Clause(field: string, op: Op, value: Literal)
    | Negation(inner: Query)
    | Conjunction(left: Query, right: Query)
    | Disjunction(left: Query, right: Query)

  predicate ClauseMeans(field: string, op: Op, v: string, lib: P.Library, rec: P.RawRecord, line: P.Line) {
    match op
    case Eq => P.Project(lib, line, field) == Some(v)
    case Ne => P.Project(lib, line, field) != Some(v)
    case Regex =>
      var x := P.Project(lib, line, field);
      x.Some? && lib.isMatch(v, x.value)
    case _ =>
      var bound := ParsePartial(v);
      bound.Some? && rec.ts != TS_UNTIMED && InOrder(op, rec.ts, bound.value)
  }

  predicate InOrder(op: Op, ts: int, bound: int) {
    if op.Gt? then ts > bound
    else if op.Ge? then ts >= bound
    else if op.Lt? then ts < bound
    else ts <= bound
  }

  /** What a query tree says about a record. */
  predicate Means(q: Query, lib: P.Library, rec: P.RawRecord, line: P.Line) {
    match q
    case Clause(field, op, value) => ClauseMeans(field, op, value.text, lib, rec, line)
    case Negation(inner) => !Means(inner, lib, rec, line)
    case Conjunction(l, r) => Means(l, lib, rec, line) && Means(r, lib, rec, line)
    case Disjunction(l, r) => Means(l, lib, rec, line) || Means(r, lib, rec, line)
  }

  function OpText(op: Op): string {
    match op
    case Eq => "=" case Ne => "!=" case Regex => "~"
    case Gt => ">" case Ge => ">=" case Lt => "<" case Le => "<="
  }

  function LiteralText(v: Literal): string {
    match v
    case Bare(t) => t
    case Quoted(t) => "\"" + t + "\""
    case Slashed(t) => "/" + t + "/"
  }

  /** How tightly a tree binds: OR, then AND, then NOT and clauses. */
  function Binding(q: Query): nat {
    match q case Disjunction(_, _) => 0 case Conjunction(_, _) => 1 case _ => 2
  }

  /** Parentheses only where a tighter context requires them. */
  function Text(q: Query, level: nat): string
    decreases q, 1
  {
    if Binding(q) < level then "(" + (Plain(q) + ")") else Plain(q)
  }

  function Plain(q: Query): string
    decreases q, 0
  {
    match q
    case Clause(field, op, value) => field + (OpText(op) + LiteralText(value))
    case Negation(inner) => "NOT " + Text(inner, 2)
    case Conjunction(l, r) => Text(l, 1) + (" " + "AND" + " " + Text(r, 1))
    case Disjunction(l, r) => Text(l, 0) + (" " + "OR" + " " + Text(r, 0))
  }

  function Print(q: Query): string { Text(q, 0) }

  // ----- which clauses can be written -----

  /** Text that ends exactly at its closing mark: no live mark inside, no
      unpaired backslash at the end. */
  predicate Closed(v: string, mark: char) {
    v == [] || (v[0] == '\\' && |v| > 1 && Closed(v[2..], mark))
    || (v[0] != '\\' && v[0] != mark && Closed(v[1..], mark))
  }

  predicate LiteralFits(op: Op, v: Literal) {
    match v
    case Bare(t) =>
      t != [] && t[0] != '"' && (op.Regex? ==> t[0] != '/') && (op.Gt? || op.Lt? ==> t[0] != '=')
      && forall c | c in t :: !IsSpace(c) && c != ')'
    case Quoted(t) => Closed(t, '"')
    case Slashed(t) => op.Regex? && Closed(t, '/')
  }

  /** Field characters only, and a leading letter run that is no keyword. */
  predicate FieldFits(field: string) {
    field != [] && (forall c | c in field :: IsFieldChar(c)) && !IsKeyword(field[..AlphaRun(field)])
  }

  predicate Writable(valid: string -> bool, q: Query) {
    match q
    case Clause(field, op, value) =>
      FieldFits(field) && LiteralFits(op, value) && BuildPredicate(valid, field, op, value.text).Ok?
    case Negation(inner) => Writable(valid, inner)
    case Conjunction(l, r) => Writable(valid, l) && Writable(valid, r)
    case Disjunction(l, r) => Writable(valid, l) && Writable(valid, r)
  }

  // ----- the tree the parser builds: chains of one operator are flattened -----

  function OrParts(valid: string -> bool, q: Query): (ps: seq<P.Predicate>)
    requires Writable(valid, q)
    ensures ps != []
    decreases q, if q.Disjunction? then 0 else if q.Conjunction? then 1 else 2
  {
    if q.Disjunction? then OrParts(valid, q.left) + OrParts(valid, q.right) else [AndOf(AndParts(valid, q))]
  }

  function AndParts(valid: string -> bool, q: Query): (ps: seq<P.Predicate>)
    requires Writable(valid, q)
    ensures ps != []
    decreases q, if q.Disjunction? then 2 else if q.Conjunction? then 0 else 1
  {
    if q.Conjunction? then AndParts(valid, q.left) + AndParts(valid, q.right) else [UnaryPart(valid, q)]
  }

  /** A clause, a negation, or a group in parentheses. */
  function UnaryPart(valid: string -> bool, q: Query): P.Predicate
    requires Writable(valid, q)
    decreases q, if q.Disjunction? then 1 else if q.Conjunction? then 2 else 0
  {
    match q
    case Clause(field, op, value) => BuildPredicate(valid, field, op, value.text).value
    case Negation(inner) => P.Not(UnaryPart(valid, inner))
    case Conjunction(_, _) => OrOf(OrParts(valid, q))
    case Disjunction(_, _) => OrOf(OrParts(valid, q))
  }

  // ----- the flattened tree keeps the meaning -----

  predicate Agrees(p: P.Predicate, q: Query, lib: P.Library, rec: P.RawRecord, line: P.Line) {
    P.Holds(p, lib, rec, line) <==> Means(q, lib, rec, line)
  }

  lemma ClauseKeepsMeaning(valid: string -> bool, q: Query, lib: P.Library, rec: P.RawRecord, line: P.Line)
    requires q.Clause? && BuildPredicate(valid, q.field, q.op, q.value.text).Ok?
    ensures Agrees(BuildPredicate(valid, q.field, q.op, q.value.text).value, q, lib, rec, line)
  {
    hide ParsePartial, P.Project;
    var field, v := q.field, q.value.text;
    match q.op {
      case Ne =>
        assert P.Holds(P.FieldEquals(field, v), lib, rec, line) <==> P.Project(lib, line, field) == Some(v);
      case _ =>
    }
  }

  lemma {:induction false} UnaryKeepsMeaning(valid: string -> bool, q: Query,
      lib: P.Library, rec: P.RawRecord, line: P.Line)
    requires Writable(valid, q)
    ensures Agrees(UnaryPart(valid, q), q, lib, rec, line)
    decreases q, if q.Disjunction? then 1 else if q.Conjunction? then 2 else 0
  {
    hide BuildPredicate, ClauseMeans;
    match q {
      case Clause(_, _, _) => ClauseKeepsMeaning(valid, q, lib, rec, line);
      case Negation(inner) => UnaryKeepsMeaning(valid, inner, lib, rec, line);
      case Conjunction(_, _) => OrKeepsMeaning(valid, q, lib, rec, line);
      case Disjunction(_, _) => OrKeepsMeaning(valid, q, lib, rec, line);
    }
  }

  lemma {:induction false} AndKeepsMeaning(valid: string -> bool, q: Query,
      lib: P.Library, rec: P.RawRecord, line: P.Line)
    requires Writable(valid, q)
    ensures Agrees(AndOf(AndParts(valid, q)), q, lib, rec, line)
    ensures Means(q, lib, rec, line) <==> forall p | p in AndParts(valid, q) :: P.Holds(p, lib, rec, line)
    decreases q, if q.Disjunction? then 2 else if q.Conjunction? then 0 else 1
  {
    hide P.Holds, Writable;
    var ps := AndParts(valid, q);
    if q.Conjunction? {
      WritableParts(valid, q);
      AndKeepsMeaning(valid, q.left, lib, rec, line);
      AndKeepsMeaning(valid, q.right, lib, rec, line);
      var ls, rs := AndParts(valid, q.left), AndParts(valid, q.right);
      assert ps == ls + rs;
      assert forall p :: p in ps <==> p in ls || p in rs;
    } else {
      UnaryKeepsMeaning(valid, q, lib, rec, line);
      assert ps == [UnaryPart(valid, q)];
    }
    AllOf(ps, lib, rec, line);
  }

  lemma AllOf(ps: seq<P.Predicate>, lib: P.Library, rec: P.RawRecord, line: P.Line)
    requires ps != []
    ensures P.Holds(AndOf(ps), lib, rec, line) <==> forall p | p in ps :: P.Holds(p, lib, rec, line)
    ensures P.Holds(OrOf(ps), lib, rec, line) <==> exists p | p in ps :: P.Holds(p, lib, rec, line)
  {
    if |ps| == 1 {
      assert forall p :: p in ps <==> p == ps[0];
    }
  }

  lemma WritableParts(valid: string -> bool, q: Query)
    requires Writable(valid, q) && (q.Conjunction? || q.Disjunction?)
    ensures Writable(valid, q.left) && Writable(valid, q.right)
  {
  }

  lemma {:induction false} OrKeepsMeaning(valid: string -> bool, q: Query,
      lib: P.Library, rec: P.RawRecord, line: P.Line)
    requires Writable(valid, q)
    ensures Agrees(OrOf(OrParts(valid, q)), q, lib, rec, line)
    ensures Means(q, lib, rec, line) <==> exists p | p in OrParts(valid, q) :: P.Holds(p, lib, rec, line)
    decreases q, if q.Disjunction? then 0 else if q.Conjunction? then 1 else 2
  {
    hide P.Holds, Writable;
    var ps := OrParts(valid, q);
    if q.Disjunction? {
      WritableParts(valid, q);
      OrKeepsMeaning(valid, q.left, lib, rec, line);
      OrKeepsMeaning(valid, q.right, lib, rec, line);
      var ls, rs := OrParts(valid, q.left), OrParts(valid, q.right);
      assert ps == ls + rs;
      assert forall p :: p in ps <==> p in ls || p in rs;
    } else {
      AndKeepsMeaning(valid, q, lib, rec, line);
      assert ps == [AndOf(AndParts(valid, q))];
    }
    AllOf(ps, lib, rec, line);
  }

  // ----- reading a printed tree back -----

  /** What may follow a clause: the end, a space, or a closing parenthesis. */
  predicate EndsClause(rest: string) { rest == [] || IsSpace(rest[0]) || rest[0] == ')' }

  /** What is left after a printed tree: a group also takes the spaces after
      its parenthesis. */
  function After(q: Query, level: nat, rest: string): string
    decreases q, level
  {
    if Binding(q) < level then SkipWs(rest)
    else
      match q
      case Clause(_, _, _) => rest
      case Negation(inner) => After(inner, 2, rest)
      case Conjunction(_, r) => After(r, 1, rest)
      case Disjunction(_, r) => After(r, 0, rest)
  }

  lemma {:induction false} AfterIsRest(q: Query, level: nat, rest: string)
    ensures After(q, level, rest) == rest || After(q, level, rest) == SkipWs(rest)
    decreases q
  {
    if Binding(q) >= level {
      match q {
        case Clause(_, _, _) =>
        case Negation(inner) => AfterIsRest(inner, 2, rest);
        case Conjunction(_, r) => AfterIsRest(r, 1, rest);
        case Disjunction(_, r) => AfterIsRest(r, 0, rest);
      }
    }
  }

  lemma SkipWsTwice(s: string)
    ensures SkipWs(SkipWs(s)) == SkipWs(s)
  {
  }

  /** Keywords are seen through leading spaces. */
  lemma KeywordAfter(q: Query, level: nat, rest: string, kw: string)
    requires kw != []
    ensures PeekKw(After(q, level, rest)) == PeekKw(rest)
    ensures PeekKw(rest) == kw ==> ConsumeKw(After(q, level, rest), kw) == ConsumeKw(rest, kw)
    ensures SkipWs(After(q, level, rest)) == SkipWs(rest)
  {
    AfterIsRest(q, level, rest);
    SkipWsTwice(rest);
    TrimmedIsShorter(rest);
  }

  lemma {:induction false} AlphaRunOf(x: string, rest: string)
    requires rest == [] || !IsAlpha(rest[0])
    ensures AlphaRun(x + rest) == AlphaRun(x)
  {
    if x == [] {
      assert x + rest == rest;
    } else {
      assert (x + rest)[1..] == x[1..] + rest;
      AlphaRunOf(x[1..], rest);
    }
  }

  /** A keyword followed by a space, alone or after one. */
  lemma KeywordSeen(kw: string, rest: string)
    requires IsKeyword(kw) && (rest == [] || !IsSpace(rest[0]))
    ensures PeekKw(kw + (" " + rest)) == kw && ConsumeKw(kw + (" " + rest), kw) == rest
    ensures PeekKw(" " + (kw + (" " + rest))) == kw && ConsumeKw(" " + (kw + (" " + rest)), kw) == rest
  {
    var s := kw + (" " + rest);
    AlphaRunOf(kw, " " + rest);
    WholeAlphaRun(kw);
    assert !IsTrimmed(s[0]) && s[..|kw|] == kw && s[|kw|..] == " " + rest;
    assert (" " + rest)[1..] == rest;
    assert SkipWs(" " + rest) == SkipWs(rest);
    assert (" " + s)[1..] == s;
    assert TrimStart(" " + s) == TrimStart(s) && SkipWs(" " + s) == SkipWs(s);
  }

  lemma WholeAlphaRun(kw: string)
    requires IsKeyword(kw)
    ensures AlphaRun(kw) == |kw|
  {
    var t := kw[1..];
    assert AlphaRun(t[1..]) == |t| - 1 by {
      if kw != "OR" {
        assert t[1..][1..] == "";
      }
    }
    assert AlphaRun(t) == |t|;
  }

  // ----- clauses read back -----

  lemma {:induction false} FieldRunOf(x: string, rest: string)
    requires forall c | c in x :: IsFieldChar(c)
    requires rest == [] || !IsFieldChar(rest[0])
    ensures FieldRun(x + rest) == |x|
  {
    if x == [] {
      assert x + rest == rest;
    } else {
      assert (x + rest)[1..] == x[1..] + rest;
      FieldRunOf(x[1..], rest);
    }
  }

  lemma {:induction false} ClosedLength(v: string, mark: char, rest: string)
    requires Closed(v, mark) && mark != '\\'
    ensures DelimitedLength(v + ([mark] + rest), mark) == |v|
  {
    var s := v + ([mark] + rest);
    if v == [] {
      assert s == [mark] + rest;
    } else if v[0] == '\\' {
      assert s[2..] == v[2..] + ([mark] + rest);
      ClosedLength(v[2..], mark, rest);
    } else {
      assert s[1..] == v[1..] + ([mark] + rest);
      ClosedLength(v[1..], mark, rest);
    }
  }

  lemma ReadDelimitedOf(v: string, mark: char, rest: string)
    requires Closed(v, mark) && mark != '\\'
    ensures ReadDelimited(v + ([mark] + rest), mark) == (v, rest)
  {
    ClosedLength(v, mark, rest);
    var s := v + ([mark] + rest);
    assert s[..|v|] == v && s[|v| + 1..] == rest;
  }

  lemma {:induction false} BareLengthOf(v: string, rest: string)
    requires (forall c | c in v :: !IsSpace(c) && c != ')') && EndsClause(rest)
    ensures BareLength(v + rest) == |v|
  {
    if v == [] {
      assert v + rest == rest;
    } else {
      hide IsSpace;
      assert v[0] in v && (v + rest)[0] == v[0];
      assert (v + rest)[1..] == v[1..] + rest;
      BareLengthOf(v[1..], rest);
    }
  }

  lemma ReadBare(op: Op, t: string, rest: string)
    requires LiteralFits(op, Bare(t)) && EndsClause(rest)
    ensures ReadValue(t + rest, op) == Ok((t, rest))
  {
    hide BareLength, DelimitedLength;
    var s := t + rest;
    BareLengthOf(t, rest);
    assert t[0] in t && s[0] == t[0];
    assert SkipWs(s) == s;
    assert s[..|t|] == t && s[|t|..] == rest;
  }

  lemma ReadMarked(op: Op, t: string, mark: char, rest: string)
    requires Closed(t, mark) && (mark == '"' || (mark == '/' && op.Regex?))
    ensures ReadValue([mark] + (t + ([mark] + rest)), op) == Ok((t, rest))
  {
    hide BareLength, ReadDelimited, Closed;
    var s := [mark] + (t + ([mark] + rest));
    ReadDelimitedOf(t, mark, rest);
    assert SkipWs(s) == s;
    assert s[1..] == t + ([mark] + rest);
  }

  lemma ReadLiteral(op: Op, v: Literal, rest: string)
    requires LiteralFits(op, v) && EndsClause(rest)
    ensures LiteralText(v) != [] && (op.Gt? || op.Lt? ==> LiteralText(v)[0] != '=')
    ensures ReadValue(LiteralText(v) + rest, op) == Ok((v.text, rest))
  {
    hide ReadValue, EndsClause, Closed;
    match v {
      case Bare(t) => ReadBare(op, t, rest);
      case Quoted(t) =>
        ReadMarked(op, t, '"', rest);
        assert LiteralText(v) + rest == ['"'] + (t + (['"'] + rest));
      case Slashed(t) =>
        ReadMarked(op, t, '/', rest);
        assert LiteralText(v) + rest == ['/'] + (t + (['/'] + rest));
    }
  }

  lemma ReadOpOf(op: Op, rest: string)
    requires rest != [] && (op.Gt? || op.Lt? ==> rest[0] != '=')
    ensures ReadOp(OpText(op) + rest) == Ok((op, rest))
  {
    var s := OpText(op) + rest;
    assert SkipWs(s) == s;
    assert s[|OpText(op)|..] == rest;
  }

  lemma ReadFieldOf(field: string, rest: string)
    requires FieldFits(field) && rest != [] && !IsFieldChar(rest[0])
    ensures var s := field + rest;
            !IsSpace(s[0]) && s[0] != '(' && !IsKeyword(PeekKw(s)) && ReadField(s) == Ok((field, rest))
  {
    var s := field + rest;
    FieldRunOf(field, rest);
    AlphaRunOf(field, rest);
    assert field[0] in field && s[0] == field[0];
    assert SkipWs(s) == s && TrimStart(s) == s;
    assert s[..AlphaRun(field)] == field[..AlphaRun(field)];
    assert s[..|field|] == field && s[|field|..] == rest;
  }

  lemma ReadsClause(valid: string -> bool, q: Query, rest: string)
    requires q.Clause? && Writable(valid, q) && EndsClause(rest)
    ensures ParseUnary(valid, Plain(q) + rest) == Ok((UnaryPart(valid, q), rest))
    ensures Plain(q) != [] && !IsSpace(Plain(q)[0])
  {
    hide ReadField, ReadOp, ReadValue, BuildPredicate, PeekKw, FieldFits, LiteralFits;
    var lit := LiteralText(q.value) + rest;
    var tail := OpText(q.op) + lit;
    var s := q.field + tail;
    assert Plain(q) + rest == s;
    ReadLiteral(q.op, q.value, rest);
    ReadOpOf(q.op, lit);
    ReadFieldOf(q.field, tail);
    assert q.field != [] by { FieldIsNotEmpty(q.field); }
    assert SkipWs(s) == s;
  }

  lemma FieldIsNotEmpty(field: string)
    requires FieldFits(field)
    ensures field != []
  {
  }

  // ----- trees read back -----

  lemma {:induction false} TextStarts(valid: string -> bool, q: Query, level: nat)
    requires Writable(valid, q)
    ensures Text(q, level) != [] && !IsSpace(Text(q, level)[0])
    decreases q
  {
    match q {
      case Clause(_, _, _) => ReadsClause(valid, q, []);
      case Negation(_) =>
      case Conjunction(l, _) => TextStarts(valid, l, 1);
      case Disjunction(l, _) => TextStarts(valid, l, 0);
    }
  }

  /** The rest of a chain, once a part has been read. */
  function OrRest(valid: string -> bool, rest: string): ParsedList {
    if PeekKw(rest) == "OR" then ParseOrItems(valid, ConsumeKw(rest, "OR")) else Ok(([], rest))
  }

  function AndRest(valid: string -> bool, rest: string): ParsedList {
    if PeekKw(rest) == "AND" then ParseAndItems(valid, ConsumeKw(rest, "AND")) else Ok(([], rest))
  }

  lemma PrependTwice(a: seq<P.Predicate>, b: seq<P.Predicate>, r: ParsedList)
    ensures Prepend(a, Prepend(b, r)) == Prepend(a + b, r)
  {
    if r.Ok? {
      assert a + (b + r.value.0) == a + b + r.value.0;
    }
  }

  /** A group or a single operand, read where a unary expression stands. */
  lemma {:induction false} ReadsUnary(valid: string -> bool, q: Query, rest: string)
    requires Writable(valid, q) && EndsClause(rest)
    ensures ParseUnary(valid, Text(q, 2) + rest) == Ok((UnaryPart(valid, q), After(q, 2, rest)))
    decreases q, if q.Disjunction? then 3 else if q.Conjunction? then 4 else 0
  {
    hide ParseUnary, OrParts, AndParts;
    match q {
      case Clause(_, _, _) => ReadsClause(valid, q, rest);
      case Negation(inner) =>
        hide Writable, UnaryPart, After, Text, EndsClause;
        NegationParts(valid, inner, rest);
        ReadsUnary(valid, inner, rest);
        TextStarts(valid, inner, 2);
        ReadsNot(valid, Text(inner, 2) + rest);
      case Conjunction(_, _) => ReadsGroup(valid, q, rest);
      case Disjunction(_, _) => ReadsGroup(valid, q, rest);
    }
  }

  lemma NegationParts(valid: string -> bool, inner: Query, rest: string)
    requires Writable(valid, Negation(inner))
    ensures Writable(valid, inner) && UnaryPart(valid, Negation(inner)) == P.Not(UnaryPart(valid, inner))
    ensures After(Negation(inner), 2, rest) == After(inner, 2, rest)
    ensures Text(Negation(inner), 2) + rest == "NOT" + (" " + (Text(inner, 2) + rest))
  {
    hide OrParts, AndParts, Text;
    NegationText(inner);
    RegroupNot(Text(inner, 2), rest);
  }

  lemma NegationText(inner: Query)
    ensures Text(Negation(inner), 2) == "NOT " + Text(inner, 2)
  {
  }

  lemma RegroupNot(t: string, rest: string)
    ensures "NOT " + t + rest == "NOT" + (" " + (t + rest))
  {
  }

  lemma ReadsNot(valid: string -> bool, s: string)
    requires s != [] && !IsSpace(s[0])
    ensures ParseUnary(valid, "NOT" + (" " + s))
         == match ParseUnary(valid, s)
            case Ok((p, rest)) => Ok((P.Not(p), rest))
            case Err(e) => Err(e)
  {
    hide ParseAtom, PeekKw, ConsumeKw;
    KeywordSeen("NOT", s);
  }

  lemma {:induction false} ReadsGroup(valid: string -> bool, q: Query, rest: string)
    requires Writable(valid, q) && (q.Conjunction? || q.Disjunction?)
    ensures ParseUnary(valid, Text(q, 2) + rest) == Ok((UnaryPart(valid, q), SkipWs(rest)))
    decreases q, if q.Disjunction? then 2 else 3
  {
    hide ParseOr, OrParts, Plain, Writable;
    var inner := Plain(q) + (")" + rest);
    ReadsOr(valid, q, ")" + rest);
    NoKeywordAtBracket(rest);
    AfterBracket(q, rest);
    PlainStarts(valid, q);
    assert Text(q, 2) + rest == "(" + inner;
    GroupUnfold(valid, inner);
    assert (")" + rest)[1..] == rest;
  }

  lemma PlainStarts(valid: string -> bool, q: Query)
    requires Writable(valid, q)
    ensures Plain(q) != [] && !IsSpace(Plain(q)[0]) && Text(q, 0) == Plain(q)
  {
    TextStarts(valid, q, 0);
  }

  lemma NoKeywordAtBracket(rest: string)
    ensures PeekKw(")" + rest) == []
  {
  }

  lemma {:induction false} AfterBracket(q: Query, rest: string)
    ensures After(q, 0, ")" + rest) == ")" + rest
  {
    AfterIsRest(q, 0, ")" + rest);
  }

  /** An opening parenthesis starts a group, whatever its content. */
  lemma GroupUnfold(valid: string -> bool, inner: string)
    requires inner != [] && !IsSpace(inner[0])
    ensures ParseUnary(valid, "(" + inner)
         == match ParseOr(valid, inner)
            case Ok((p, rest)) =>
              (var u := SkipWs(rest);
               if u == [] || u[0] != ')' then Err(ExpectedClose) else Ok((p, SkipWs(u[1..]))))
            case Err(e) => Err(e)
  {
    hide ParseOr, ParseClause;
    var s := "(" + inner;
    assert s[1..] == inner;
    assert PeekKw(s) == [] by {
      assert TrimStart(s) == s && AlphaRun(s) == 0;
    }
    assert SkipWs(s) == s && SkipWs(inner) == inner;
  }

  lemma AndSingle(valid: string -> bool, s: string, p: P.Predicate, rest: string)
    requires ParseUnary(valid, s) == Ok((p, rest))
    ensures ParseAndItems(valid, s) == Prepend([p], AndRest(valid, rest))
  {
    hide ParseUnary, PeekKw, ConsumeKw;
  }

  /** After the left operand, a keyword leads to the right one. */
  lemma AndChained(valid: string -> bool, left: Query, right: string)
    requires right != [] && !IsSpace(right[0])
    ensures AndRest(valid, After(left, 1, " " + ("AND" + (" " + right)))) == ParseAndItems(valid, right)
  {
    hide ParseAndItems, PeekKw, ConsumeKw, After;
    KeywordSeen("AND", right);
    KeywordAfter(left, 1, " " + ("AND" + (" " + right)), "AND");
  }

  lemma ChainText(q: Query, rest: string)
    ensures q.Conjunction? ==>
              Text(q, 1) + rest == Text(q.left, 1) + (" " + ("AND" + (" " + (Text(q.right, 1) + rest))))
    ensures q.Disjunction? ==>
              Text(q, 0) + rest == Text(q.left, 0) + (" " + ("OR" + (" " + (Text(q.right, 0) + rest))))
  {
    match q {
      case Conjunction(l, r) => Regroup(Text(l, 1), "AND", Text(r, 1), rest);
      case Disjunction(l, r) => Regroup(Text(l, 0), "OR", Text(r, 0), rest);
      case _ =>
    }
  }

  lemma Regroup(l: string, kw: string, r: string, rest: string)
    ensures l + (" " + kw + " " + r) + rest == l + (" " + (kw + (" " + (r + rest))))
  {
  }

  lemma StartsPlainly(valid: string -> bool, q: Query, level: nat, rest: string)
    requires Writable(valid, q)
    ensures var s := Text(q, level) + rest;
            s != [] && !IsSpace(s[0])
  {
    hide Text, Writable;
    TextStarts(valid, q, level);
  }

  lemma {:induction false} ReadsAndItems(valid: string -> bool, q: Query, rest: string)
    requires Writable(valid, q) && EndsClause(rest)
    ensures ParseAndItems(valid, Text(q, 1) + rest)
         == Prepend(AndParts(valid, q), AndRest(valid, After(q, 1, rest)))
    decreases q, if q.Disjunction? then 4 else if q.Conjunction? then 0 else 1
  {
    hide ParseUnary, ParseAndItems, UnaryPart, Prepend, AndRest, Writable, Text;
    if q.Conjunction? {
      WritableParts(valid, q);
      var right := Text(q.right, 1) + rest;
      var more := " " + ("AND" + (" " + right));
      ReadsAndItems(valid, q.left, more);
      ReadsAndItems(valid, q.right, rest);
      StartsPlainly(valid, q.right, 1, rest);
      AndChained(valid, q.left, right);
      ChainText(q, rest);
      PrependTwice(AndParts(valid, q.left), AndParts(valid, q.right), AndRest(valid, After(q.right, 1, rest)));
    } else {
      ReadsUnary(valid, q, rest);
      SameText(q, 1, rest);
      AndSingle(valid, Text(q, 1) + rest, UnaryPart(valid, q), After(q, 1, rest));
    }
  }

  /** Where the tree binds tightly enough anyway, a stricter context prints the
      same text. */
  lemma SameText(q: Query, level: nat, rest: string)
    requires level <= 1 && Binding(q) != level
    ensures Text(q, level + 1) == Text(q, level)
    ensures After(q, level + 1, rest) == After(q, level, rest)
  {
  }

  lemma OrSingle(valid: string -> bool, s: string, parts: seq<P.Predicate>, rest: string)
    requires parts != [] && PeekKw(rest) != "AND"
    requires ParseAndItems(valid, s) == Prepend(parts, AndRest(valid, rest))
    ensures ParseOrItems(valid, s) == Prepend([AndOf(parts)], OrRest(valid, rest))
  {
    hide ParseAndItems, PeekKw, ConsumeKw, AndOf;
    assert parts + [] == parts;
  }

  lemma OrChained(valid: string -> bool, left: Query, right: string)
    requires right != [] && !IsSpace(right[0])
    ensures PeekKw(" " + ("OR" + (" " + right))) == "OR"
    ensures OrRest(valid, After(left, 0, " " + ("OR" + (" " + right)))) == ParseOrItems(valid, right)
  {
    hide ParseOrItems, PeekKw, ConsumeKw, After;
    KeywordSeen("OR", right);
    KeywordAfter(left, 0, " " + ("OR" + (" " + right)), "OR");
  }

  lemma {:induction false} ReadsOrItems(valid: string -> bool, q: Query, rest: string)
    requires Writable(valid, q) && EndsClause(rest) && PeekKw(rest) != "AND"
    ensures ParseOrItems(valid, Text(q, 0) + rest)
         == Prepend(OrParts(valid, q), OrRest(valid, After(q, 0, rest)))
    decreases q, if q.Disjunction? then 0 else if q.Conjunction? then 1 else 2
  {
    hide PeekKw, AndParts, AndOf, ParseAndItems, ParseOrItems, Prepend, AndRest, OrRest, Writable, Text;
    if q.Disjunction? {
      WritableParts(valid, q);
      var right := Text(q.right, 0) + rest;
      var more := " " + ("OR" + (" " + right));
      StartsPlainly(valid, q.right, 0, rest);
      OrChained(valid, q.left, right);
      ReadsOrItems(valid, q.left, more);
      ReadsOrItems(valid, q.right, rest);
      ChainText(q, rest);
      PrependTwice(OrParts(valid, q.left), OrParts(valid, q.right), OrRest(valid, After(q.right, 0, rest)));
    } else {
      ReadsAndItems(valid, q, rest);
      SameText(q, 0, rest);
      KeywordAfter(q, 1, rest, "AND");
      OrSingle(valid, Text(q, 0) + rest, AndParts(valid, q), After(q, 0, rest));
    }
  }

  lemma {:induction false} ReadsOr(valid: string -> bool, q: Query, rest: string)
    requires Writable(valid, q) && EndsClause(rest) && PeekKw(rest) != "AND" && PeekKw(rest) != "OR"
    ensures ParseOr(valid, Text(q, 0) + rest) == Ok((OrOf(OrParts(valid, q)), After(q, 0, rest)))
    decreases q, if q.Disjunction? then 1 else if q.Conjunction? then 2 else 3
  {
    hide PeekKw, ConsumeKw, OrParts, ParseOrItems;
    ReadsOrItems(valid, q, rest);
    KeywordAfter(q, 0, rest, "OR");
    assert OrParts(valid, q) + [] == OrParts(valid, q);
  }

  /** Compiling a printed tree succeeds, and the compiled predicate holds of
      exactly the records the tree describes. */
  lemma CompilePrinted(valid: string -> bool, q: Query)
    requires Writable(valid, q)
    ensures Compile(valid, Print(q)) == Ok(OrOf(OrParts(valid, q)))
    ensures forall lib: P.Library, rec, line ::
              P.Holds(OrOf(OrParts(valid, q)), lib, rec, line) <==> Means(q, lib, rec, line)
  {
    hide ParseOr, OrParts, Writable, Plain;
    PlainStarts(valid, q);
    ReadsOr(valid, q, []);
    AfterIsRest(q, 0, []);
    assert Text(q, 0) + [] == Print(q);
    forall lib: P.Library, rec, line
      ensures P.Holds(OrOf(OrParts(valid, q)), lib, rec, line) <==> Means(q, lib, rec, line)
    {
      OrKeepsMeaning(valid, q, lib, rec, line);
    }
  }

  // ----- what can be asked for -----

  /** A value that some text stands for: bare, or between a quote and the next
      live one or the end of the query. Backslashes stay in the value. */
  predicate Askable(v: string) {
    LiteralFits(Eq, Bare(v)) || DelimitedLength(v, '"') == |v|
  }

  lemma {:induction false} DelimitedPrefix(s: string, mark: char)
    ensures DelimitedLength(s[..DelimitedLength(s, mark)], mark) == DelimitedLength(s, mark)
  {
    var n := DelimitedLength(s, mark);
    if s == [] || s[0] == mark {
      assert s[..n] == [];
    } else if s[0] == '\\' && |s| > 1 {
      DelimitedPrefix(s[2..], mark);
      assert s[..n][2..] == s[2..][..n - 2];
    } else {
      DelimitedPrefix(s[1..], mark);
      assert s[..n][1..] == s[1..][..n - 1];
    }
  }

  lemma {:induction false} BareChars(s: string)
    ensures forall c | c in s[..BareLength(s)] :: !IsSpace(c) && c != ')'
  {
    hide IsSpace;
    if BareLength(s) > 0 {
      BareChars(s[1..]);
      assert s[..BareLength(s)] == [s[0]] + s[1..][..BareLength(s) - 1];
    }
  }

  lemma ReadsAskable(s: string)
    requires ReadValue(s, Eq).Ok?
    ensures Askable(ReadValue(s, Eq).value.0)
  {
    hide DelimitedLength, BareLength, IsSpace;
    var t := SkipWs(s);
    var v := ReadValue(s, Eq).value.0;
    if t[0] == '"' {
      DelimitedPrefix(t[1..], '"');
    } else {
      BareChars(t);
      if v == [] {
        NothingDelimited();
      }
    }
  }

  lemma NothingDelimited()
    ensures DelimitedLength([], '"') == 0
  {
  }

  lemma {:induction false} FieldChars(s: string)
    ensures forall c | c in s[..FieldRun(s)] :: IsFieldChar(c)
    ensures AlphaRun(s[..FieldRun(s)]) == AlphaRun(s) <= FieldRun(s)
  {
    if FieldRun(s) > 0 {
      FieldChars(s[1..]);
      assert s[..FieldRun(s)] == [s[0]] + s[1..][..FieldRun(s) - 1];
      assert s[..FieldRun(s)][1..] == s[1..][..FieldRun(s) - 1];
    }
  }

  lemma ReadsFitting(s: string)
    requires ReadField(s).Ok?
    ensures FieldFits(ReadField(s).value.0)
  {
    hide FieldRun, AlphaRun, IsKeyword;
    var t := SkipWs(s);
    var field := t[..FieldRun(t)];
    FieldChars(t);
    assert field[0] in field && TrimStart(t) == t;
    assert field[..AlphaRun(field)] == t[..AlphaRun(t)];
  }

  predicate Asks(r: Parsed, field: string, v: string) { r.Ok? && r.value.0 == P.FieldEquals(field, v) }

  lemma ClauseAsks(valid: string -> bool, s: string, field: string, v: string)
    requires Asks(ParseClause(valid, s), field, v)
    ensures FieldFits(field) && Askable(v)
  {
    hide ReadField, ReadOp, ReadValue, FieldFits, Askable, ParsePartial;
    var (f, s1) := ReadField(s).value;
    var (op, s2) := ReadOp(s1).value;
    ReadsFitting(s);
    if op.Eq? {
      ReadsAskable(s2);
    }
  }

  lemma {:induction false} AtomAsks(valid: string -> bool, s: string, field: string, v: string)
    requires Asks(ParseAtom(valid, s), field, v)
    ensures FieldFits(field) && Askable(v)
    decreases |s|, 0
  {
    hide ParseOr, ParseClause, FieldFits, Askable;
    var t := SkipWs(s);
    if t != [] && t[0] == '(' {
      OrAsks(valid, SkipWs(t[1..]), field, v);
    } else {
      ClauseAsks(valid, t, field, v);
    }
  }

  lemma {:induction false} UnaryAsks(valid: string -> bool, s: string, field: string, v: string)
    requires Asks(ParseUnary(valid, s), field, v)
    ensures FieldFits(field) && Askable(v)
    decreases |s|, 1
  {
    hide ParseAtom, PeekKw, ConsumeKw, FieldFits, Askable;
    AtomAsks(valid, s, field, v);
  }

  lemma {:induction false} AndAsks(valid: string -> bool, s: string, field: string, v: string)
    requires Asks(ParseAnd(valid, s), field, v)
    ensures FieldFits(field) && Askable(v)
    decreases |s|, 3
  {
    hide ParseUnary, ParseAndItems, PeekKw, ConsumeKw, AndRest, FieldFits, Askable;
    AndItemsUnfold(valid, s);
    UnaryAsks(valid, s, field, v);
  }

  lemma {:induction false} OrAsks(valid: string -> bool, s: string, field: string, v: string)
    requires Asks(ParseOr(valid, s), field, v)
    ensures FieldFits(field) && Askable(v)
    decreases |s|, 5
  {
    hide ParseAnd, ParseOrItems, PeekKw, ConsumeKw, OrRest, FieldFits, Askable;
    OrItemsUnfold(valid, s);
    AndAsks(valid, s, field, v);
  }

  /** A clause that takes the whole text is the whole query. */
  lemma ReadsAlone(valid: string -> bool, s: string, p: P.Predicate)
    requires ParseClause(valid, s) == Ok((p, [])) && s != [] && s[0] != '(' && !IsSpace(s[0])
    requires !IsKeyword(PeekKw(s))
    ensures Compile(valid, s) == Ok(p)
  {
    hide ParseClause, PeekKw, ConsumeKw, ParseAndItems, ParseOrItems, AndRest, OrRest;
    assert SkipWs(s) == s;
    assert ParseUnary(valid, s) == Ok((p, []));
    NoKeywordAtEnd();
    AndItemsUnfold(valid, s);
    AndRestUnfold(valid, []);
    PrependNothing([p], []);
    OrItemsUnfold(valid, s);
    OrRestUnfold(valid, []);
  }

  lemma NoKeywordAtEnd()
    ensures PeekKw([]) == []
  {
  }

  /** A text for an askable value at the end of a query. */
  function Written(v: string): (lit: string)
    ensures lit != []
  {
    if LiteralFits(Eq, Bare(v)) then v else "\"" + v
  }

  lemma ReadsAskedValue(v: string)
    requires Askable(v)
    ensures ReadValue(Written(v), Eq) == Ok((v, []))
  {
    hide DelimitedLength, BareLength;
    if LiteralFits(Eq, Bare(v)) {
      assert v + [] == v;
      ReadBare(Eq, v, []);
    } else {
      var s := "\"" + v;
      assert SkipWs(s) == s && s[1..] == v && v[..|v|] == v;
    }
  }

  lemma AskedAs(valid: string -> bool, field: string, v: string)
    requires FieldFits(field) && Askable(v)
    ensures Compile(valid, field + ("=" + Written(v))) == Ok(P.FieldEquals(field, v))
  {
    hide ReadField, ReadOp, ReadValue, FieldFits, Askable, PeekKw, Written, IsKeyword;
    var lit := Written(v);
    ReadsAskedValue(v);
    ReadOpOf(Eq, lit);
    ReadFieldOf(field, "=" + lit);
    FieldIsNotEmpty(field);
    ReadsAlone(valid, field + ("=" + lit), P.FieldEquals(field, v));
  }

  /** Some query asks whether a field has a value exactly when the field is made
      of field characters with no keyword in front, and the value either holds no
      space, no `)` and no quote in front, or no live quote. */
  lemma AskableIff(valid: string -> bool, field: string, v: string)
    ensures (exists text :: Compile(valid, text) == Ok(P.FieldEquals(field, v))) <==> FieldFits(field) && Askable(v)
  {
    hide ParseOr, Askable, FieldFits, LiteralFits;
    forall text | Compile(valid, text) == Ok(P.FieldEquals(field, v))
      ensures FieldFits(field) && Askable(v)
    {
      OrAsks(valid, SkipWs(text), field, v);
    }
    if FieldFits(field) && Askable(v) {
      AskedAs(valid, field, v);
    }
  }

  // ----- the tokenizer and the parser as the source runs them -----

  class Tokenizer {
    const src: string
    var pos: nat

    ghost predicate Valid()
      reads this
    {
      pos <= |src|
    }

    function Rest(): string
      requires pos <= |src|
      reads this
    {
      src[pos..]
    }

    constructor (src: string)
      ensures Valid() && this.src == src && Rest() == SkipWs(src)
    {
      this.src := src;
      this.pos := 0;
      new;
      SkipSpace();
    }

    method SkipSpace()
      requires Valid()
      modifies this`pos
      ensures Valid() && old(pos) <= pos && Rest() == SkipWs(old(Rest()))
    {
      ghost var goal := SkipWs(Rest());
      while pos < |src| && IsSpace(src[pos])
        invariant Valid() && old(pos) <= pos && SkipWs(Rest()) == goal
      {
        assert Rest()[1..] == src[pos + 1..];
        pos := pos + 1;
      }
    }

    method IsEmpty() returns (b: bool)
      requires Valid()
      modifies this`pos
      ensures Valid() && Rest() == SkipWs(old(Rest())) && (b <==> Rest() == [])
    {
      SkipSpace();
      b := pos >= |src|;
    }

    method Advance(n: nat)
      requires Valid() && pos + n <= |src|
      modifies this`pos
      ensures Valid() && old(pos) + n <= pos && Rest() == SkipWs(old(Rest())[n..])
    {
      assert Rest()[n..] == src[pos + n..];
      pos := pos + n;
      SkipSpace();
    }

    method TakeKw(expected: string)
      requires Valid() && expected != [] && PeekKw(Rest()) == expected
      modifies this`pos
      ensures Valid() && old(pos) < pos && Rest() == ConsumeKw(old(Rest()), expected)
    {
      TrimmedIsShorter(Rest());
      SkipSpace();
      Advance(|expected|);
    }

    method Field() returns (r: Result<string, Error>)
      requires Valid()
      modifies this`pos
      ensures Valid() && old(pos) <= pos
      ensures ReadField(old(Rest())) == match r case Ok(f) => Ok((f, Rest())) case Err(e) => Err(e)
    {
      hide FieldRun, PeekKw, IsKeyword, SkipWs;
      SkipSpace();
      if IsKeyword(PeekKw(Rest())) { return Err(KeywordAsField); }
      var start := pos;
      pos := FieldEnd(src, start);
      SliceOfSuffix(src, start, 0, pos - start);
      SliceOfSuffix(src, start, pos - start, |src| - start);
      if pos == start { return Err(ExpectedField); }
      r := Ok(src[start..pos]);
    }

    method Operator() returns (r: Result<Op, Error>)
      requires Valid()
      modifies this`pos
      ensures Valid() && old(pos) <= pos
      ensures ReadOp(old(Rest())) == match r case Ok(o) => Ok((o, Rest())) case Err(e) => Err(e)
    {
      SkipSpace();
      var rest := Rest();
      if rest == [] { return Err(ExpectedOperator); }
      var op, len;
      if rest[0] == '=' { op, len := Eq, 1; }
      else if rest[0] == '~' { op, len := Regex, 1; }
      else if rest[0] == '!' && |rest| > 1 && rest[1] == '=' { op, len := Ne, 2; }
      else if rest[0] == '>' && |rest| > 1 && rest[1] == '=' { op, len := Ge, 2; }
      else if rest[0] == '<' && |rest| > 1 && rest[1] == '=' { op, len := Le, 2; }
      else if rest[0] == '>' { op, len := Gt, 1; }
      else if rest[0] == '<' { op, len := Lt, 1; }
      else { return Err(ExpectedOperator); }
      assert rest[len..] == src[pos + len..];
      pos := pos + len;
      r := Ok(op);
    }

    /** The text up to a closing mark, which is taken too when it is there. */
    method Delimited(mark: char) returns (value: string)
      requires Valid()
      modifies this`pos
      ensures Valid() && old(pos) <= pos
      ensures ReadDelimited(old(Rest()), mark) == (value, Rest())
    {
      hide DelimitedLength;
      var start := pos;
      pos := MarkPosition(src, start, mark);
      value := src[start..pos];
      SliceOfSuffix(src, start, 0, pos - start);
      if pos < |src| {
        SliceOfSuffix(src, start, pos - start + 1, |src| - start);
        pos := pos + 1;
      } else {
        assert Rest() == [];
      }
    }

    method Value(op: Op) returns (r: Result<string, Error>)
      requires Valid()
      modifies this`pos
      ensures Valid() && old(pos) <= pos
      ensures ReadValue(old(Rest()), op) == match r case Ok(v) => Ok((v, Rest())) case Err(e) => Err(e)
    {
      hide ReadDelimited, BareLength, SkipWs;
      SkipSpace();
      if pos >= |src| { return Err(ExpectedValue); }
      var start := pos;
      if (op.Regex? && src[pos] == '/') || src[pos] == '"' {
        var mark := src[pos];
        SliceOfSuffix(src, start, 1, |src| - start);
        pos := pos + 1;
        var value := Delimited(mark);
        return Ok(value);
      }
      pos := BareEnd(src, start);
      SliceOfSuffix(src, start, 0, pos - start);
      SliceOfSuffix(src, start, pos - start, |src| - start);
      r := Ok(src[start..pos]);
    }
  }

  // The character loops of the tokenizer, each from a position to the first
  // character it does not take.

  method FieldEnd(src: string, start: nat) returns (end: nat)
    requires start <= |src|
    ensures start <= end <= |src| && end == start + FieldRun(src[start..])
  {
    end := start;
    while end < |src| && IsFieldChar(src[end])
      invariant start <= end <= |src|
      invariant FieldRun(src[start..]) == end - start + FieldRun(src[end..])
    {
      assert src[end..][1..] == src[end + 1..];
      end := end + 1;
    }
  }

  method BareEnd(src: string, start: nat) returns (end: nat)
    requires start <= |src|
    ensures start <= end <= |src| && end == start + BareLength(src[start..])
  {
    end := start;
    while end < |src| && !IsSpace(src[end]) && src[end] != ')'
      invariant start <= end <= |src|
      invariant BareLength(src[start..]) == end - start + BareLength(src[end..])
    {
      assert src[end..][1..] == src[end + 1..];
      end := end + 1;
    }
  }

  method MarkPosition(src: string, start: nat, mark: char) returns (end: nat)
    requires start <= |src|
    ensures start <= end <= |src| && end == start + DelimitedLength(src[start..], mark)
  {
    end := start;
    while end < |src| && src[end] != mark
      invariant start <= end <= |src|
      invariant DelimitedLength(src[start..], mark) == end - start + DelimitedLength(src[end..], mark)
    {
      if src[end] == '\\' && end + 1 < |src| {
        assert src[end..][2..] == src[end + 2..];
        end := end + 2;
      } else {
        assert src[end..][1..] == src[end + 1..];
        end := end + 1;
      }
    }
  }

  /** A parsing step on the tokenizer agrees with its function: same verdict,
      and on success the same rest, further on than `was`. */
  ghost predicate Stepped(t: Tokenizer, was: nat, expected: Parsed, r: Result<P.Predicate, Error>)
    reads t
  {
    t.Valid()
    && match r
       case Ok(p) => expected == Ok((p, t.Rest())) && was < t.pos
       case Err(e) => expected == Err(e)
  }

  method ParseClauseTokens(valid: string -> bool, t: Tokenizer) returns (r: Result<P.Predicate, Error>)
    requires t.Valid()
    modifies t`pos
    ensures Stepped(t, old(t.pos), ParseClause(valid, old(t.Rest())), r)
  {
    hide ReadField, ReadOp, ReadValue, BuildPredicate;
    var field := t.Field();
    if field.Err? { return Err(field.error); }
    var op := t.Operator();
    if op.Err? { return Err(op.error); }
    var value := t.Value(op.value);
    if value.Err? { return Err(value.error); }
    r := BuildPredicate(valid, field.value, op.value, value.value);
  }

  method ParseAtomTokens(valid: string -> bool, t: Tokenizer) returns (r: Result<P.Predicate, Error>)
    requires t.Valid()
    modifies t`pos
    ensures Stepped(t, old(t.pos), ParseAtom(valid, old(t.Rest())), r)
    decreases |t.src| - t.pos, 0
  {
    hide ParseOr, ParseClause, SkipWs;
    t.SkipSpace();
    if t.pos < |t.src| && t.src[t.pos] == '(' {
      ghost var open := t.Rest();
      t.Advance(1);
      ghost var s := t.Rest();
      var inner := ParseOrTokens(valid, t);
      if inner.Err? { return inner; }
      t.SkipSpace();
      if t.pos >= |t.src| || t.src[t.pos] != ')' { return Err(ExpectedClose); }
      t.Advance(1);
      return inner;
    }
    r := ParseClauseTokens(valid, t);
  }

  method ParseUnaryTokens(valid: string -> bool, t: Tokenizer) returns (r: Result<P.Predicate, Error>)
    requires t.Valid()
    modifies t`pos
    ensures Stepped(t, old(t.pos), ParseUnary(valid, old(t.Rest())), r)
    decreases |t.src| - t.pos, 1
  {
    hide ParseAtom, PeekKw, ConsumeKw;
    if PeekKw(t.Rest()) == "NOT" {
      t.TakeKw("NOT");
      var inner := ParseUnaryTokens(valid, t);
      if inner.Err? { return inner; }
      return Ok(P.Not(inner.value));
    }
    r := ParseAtomTokens(valid, t);
  }

  method ParseAndTokens(valid: string -> bool, t: Tokenizer) returns (r: Result<P.Predicate, Error>)
    requires t.Valid()
    modifies t`pos
    ensures Stepped(t, old(t.pos), ParseAnd(valid, old(t.Rest())), r)
    decreases |t.src| - t.pos, 2
  {
    hide ParseUnary, PeekKw, ConsumeKw, ParseAndItems, Prepend, AndRest;
    ghost var s := t.Rest();
    var first := ParseUnaryTokens(valid, t);
    AndItemsUnfold(valid, s);
    if first.Err? { return first; }
    var parts := [first.value];
    while PeekKw(t.Rest()) == "AND"
      invariant t.Valid() && old(t.pos) < t.pos && parts != []
      invariant ParseAndItems(valid, s) == Prepend(parts, AndRest(valid, t.Rest()))
      decreases |t.src| - t.pos
    {
      AndRestUnfold(valid, t.Rest());
      t.TakeKw("AND");
      ghost var s' := t.Rest();
      var next := ParseUnaryTokens(valid, t);
      AndItemsUnfold(valid, s');
      PrependError(parts, ParseAndItems(valid, s'));
      if next.Err? { return next; }
      PrependTwice(parts, [next.value], AndRest(valid, t.Rest()));
      parts := parts + [next.value];
    }
    AndRestUnfold(valid, t.Rest());
    PrependNothing(parts, t.Rest());
    r := Ok(AndOf(parts));
  }

  method ParseOrTokens(valid: string -> bool, t: Tokenizer) returns (r: Result<P.Predicate, Error>)
    requires t.Valid()
    modifies t`pos
    ensures Stepped(t, old(t.pos), ParseOr(valid, old(t.Rest())), r)
    decreases |t.src| - t.pos, 3
  {
    hide ParseAnd, PeekKw, ConsumeKw, ParseOrItems, Prepend, OrRest;
    ghost var s := t.Rest();
    var first := ParseAndTokens(valid, t);
    OrItemsUnfold(valid, s);
    if first.Err? { return first; }
    var parts := [first.value];
    while PeekKw(t.Rest()) == "OR"
      invariant t.Valid() && old(t.pos) < t.pos && parts != []
      invariant ParseOrItems(valid, s) == Prepend(parts, OrRest(valid, t.Rest()))
      decreases |t.src| - t.pos
    {
      OrRestUnfold(valid, t.Rest());
      t.TakeKw("OR");
      ghost var s' := t.Rest();
      var next := ParseAndTokens(valid, t);
      OrItemsUnfold(valid, s');
      PrependError(parts, ParseOrItems(valid, s'));
      if next.Err? { return next; }
      PrependTwice(parts, [next.value], OrRest(valid, t.Rest()));
      parts := parts + [next.value];
    }
    OrRestUnfold(valid, t.Rest());
    PrependNothing(parts, t.Rest());
    r := Ok(OrOf(parts));
  }

  lemma AndItemsUnfold(valid: string -> bool, s: string)
    ensures ParseAndItems(valid, s)
         == match ParseUnary(valid, s)
            case Ok((first, rest)) => Prepend([first], AndRest(valid, rest))
            case Err(e) => Err(e)
  {
    hide ParseUnary, PeekKw, ConsumeKw;
  }

  lemma OrItemsUnfold(valid: string -> bool, s: string)
    ensures ParseOrItems(valid, s)
         == match ParseAnd(valid, s)
            case Ok((first, rest)) => Prepend([first], OrRest(valid, rest))
            case Err(e) => Err(e)
  {
    hide ParseAnd, PeekKw, ConsumeKw;
  }

  lemma AndRestUnfold(valid: string -> bool, rest: string)
    ensures AndRest(valid, rest)
         == if PeekKw(rest) == "AND" then ParseAndItems(valid, ConsumeKw(rest, "AND")) else Ok(([], rest))
  {
  }

  lemma OrRestUnfold(valid: string -> bool, rest: string)
    ensures OrRest(valid, rest)
         == if PeekKw(rest) == "OR" then ParseOrItems(valid, ConsumeKw(rest, "OR")) else Ok(([], rest))
  {
  }

  lemma PrependError(parts: seq<P.Predicate>, r: ParsedList)
    ensures r.Err? ==> Prepend(parts, r) == r
  {
  }

  lemma PrependNothing(parts: seq<P.Predicate>, rest: string)
    ensures Prepend(parts, Ok(([], rest))) == Ok((parts, rest))
  {
    assert parts + [] == parts;
  }

  method CompileQuery(valid: string -> bool, source: string) returns (r: Result<P.Predicate, Error>)
    ensures r == Compile(valid, source)
  {
    hide ParseOr, SkipWs;
    var tokens := new Tokenizer(source);
    var empty := tokens.IsEmpty();
    SkipWsTwice(source);
    if empty { return Err(EmptyQuery); }
    var p := ParseOrTokens(valid, tokens);
    if p.Err? { return p; }
    empty := tokens.IsEmpty();
    if !empty { return Err(TrailingInput); }
    r := p;
  }
}
