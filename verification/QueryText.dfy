/** Queries as they are typed: what each operator, connective and parenthesis
    in the text compiles to, and which texts are refused. */
module QueryText {
  import opened Common
  import opened Query
  import P = Predicates

  // ----- the alphabet -----

  predicate IsLetter(c: char) { 'A' <= c <= 'Z' || 'a' <= c <= 'z' }

  /** The text is a keyword, or one followed by something that is no letter. */
  predicate StartsWith(field: string, kw: string) {
    kw <= field && (|field| == |kw| || !IsLetter(field[|kw|]))
  }

  /** A field is made of letters, digits and `_ . @ -`, and no keyword stands in
      front of it. */
  lemma FieldFitsIff(field: string)
    ensures FieldFits(field) <==>
      field != []
      && (forall c <- field :: IsLetter(c) || '0' <= c <= '9' || c == '_' || c == '.' || c == '@' || c == '-')
      && !StartsWith(field, "AND") && !StartsWith(field, "OR") && !StartsWith(field, "NOT")
  {
    LetterRun(field, "AND");
    LetterRun(field, "OR");
    LetterRun(field, "NOT");
  }

  lemma LetterRun(field: string, kw: string)
    requires IsKeyword(kw)
    ensures field[..AlphaRun(field)] == kw <==> StartsWith(field, kw)
  {
    hide IsKeyword;
    AllLetters(field);
    if StartsWith(field, kw) {
      WholeAlphaRun(kw);
      var rest := field[|kw|..];
      assert field == kw + rest;
      AlphaRunOf(kw, rest);
    }
  }

  lemma {:induction false} AllLetters(s: string)
    ensures AlphaRun(s) < |s| ==> !IsLetter(s[AlphaRun(s)])
  {
    if s != [] && IsAlpha(s[0]) {
      AllLetters(s[1..]);
    }
  }

  /** Tab, line feed, form feed, carriage return or space. */
  predicate Blank(c: char) { c == '\t' || c == '\n' || c as int == 12 || c == '\r' || c == ' ' }

  // ----- one clause -----

  /** A clause compiles as its operator says: equality and its negation always,
      a pattern iff the regex engine takes it, a comparison iff the field is `ts`
      and the value can be read as a time; otherwise the query is refused. */
  lemma ClauseText(valid: string -> bool, field: string, v: string)
    requires FieldFits(field) && v != [] && v[0] != '"' && v[0] != '/' && v[0] != '='
    requires forall c <- v :: !Blank(c) && c != ')'
    ensures Compile(valid, field + "=" + v) == Ok(P.FieldEquals(field, v))
    ensures Compile(valid, field + "!=" + v) == Ok(P.Not(P.FieldEquals(field, v)))
    ensures Compile(valid, field + "~" + v) == if valid(v) then Ok(P.FieldRegex(field, v)) else Err(BadRegex)
    ensures Compile(valid, field + ">" + v) == Compared(field, v, P.Greater)
    ensures Compile(valid, field + ">=" + v) == Compared(field, v, P.GreaterEq)
    ensures Compile(valid, field + "<" + v) == Compared(field, v, P.Less)
    ensures Compile(valid, field + "<=" + v) == Compared(field, v, P.LessEq)
  {
    hide Compile, FieldFits, ParsePartial;
    assert field + "=" + v == field + ("=" + v) && field + "!=" + v == field + ("!=" + v);
    assert field + "~" + v == field + ("~" + v) && field + ">" + v == field + (">" + v);
    assert field + ">=" + v == field + (">=" + v) && field + "<" + v == field + ("<" + v);
    assert field + "<=" + v == field + ("<=" + v);
    OneClause(valid, field, Eq, Bare(v));
    OneClause(valid, field, Ne, Bare(v));
    OneClause(valid, field, Regex, Bare(v));
    OneClause(valid, field, Gt, Bare(v));
    OneClause(valid, field, Ge, Bare(v));
    OneClause(valid, field, Lt, Bare(v));
    OneClause(valid, field, Le, Bare(v));
  }

  function Compared(field: string, v: string, op: P.TimeCmp): Result<P.Predicate, Error> {
    if field != "ts" then Err(ComparisonOnNonTs)
    else if ParsePartial(v).None? then Err(BadTimestamp)
    else Ok(P.TimeRange(ParsePartial(v).value, op))
  }

  /** A value in quotes may hold anything but a live quote, and a pattern between
      slashes anything but a live slash; backslashes stay. */
  lemma MarkedText(valid: string -> bool, field: string, v: string)
    requires FieldFits(field)
    ensures Closed(v, '"') ==> Compile(valid, field + "=\"" + v + "\"") == Ok(P.FieldEquals(field, v))
    ensures Closed(v, '/') ==>
              Compile(valid, field + "~/" + v + "/") == if valid(v) then Ok(P.FieldRegex(field, v)) else Err(BadRegex)
  {
    hide Compile, FieldFits, ParsePartial, Closed;
    assert field + "=\"" + v + "\"" == field + ("=" + ("\"" + v + "\""));
    assert field + "~/" + v + "/" == field + ("~" + ("/" + v + "/"));
    if Closed(v, '"') {
      OneClause(valid, field, Eq, Quoted(v));
    }
    if Closed(v, '/') {
      OneClause(valid, field, Regex, Slashed(v));
    }
  }

  /** As written: a mark with a backslash in front does not end the value, and the
      backslash stays in it. */
  lemma EscapedMark(valid: string -> bool, field: string, v: string, w: string)
    requires FieldFits(field) && forall c <- v + w :: c != '"' && c != '/' && c != '\\'
    ensures Compile(valid, field + "=\"" + (v + "\\\"" + w) + "\"") == Ok(P.FieldEquals(field, v + "\\\"" + w))
    ensures valid(v + "\\/" + w) ==>
              Compile(valid, field + "~/" + (v + "\\/" + w) + "/") == Ok(P.FieldRegex(field, v + "\\/" + w))
  {
    hide Compile, FieldFits, Closed;
    ClosedAround(v, '"', w);
    ClosedAround(v, '/', w);
    MarkedText(valid, field, v + "\\\"" + w);
    MarkedText(valid, field, v + "\\/" + w);
    assert "\\\"" == ['\\', '"'] && "\\/" == ['\\', '/'];
  }

  lemma ClosedAround(v: string, mark: char, w: string)
    requires forall c <- v + w :: c != mark && c != '\\'
    ensures Closed(v + ['\\', mark] + w, mark)
  {
    forall c | c in v || c in w ensures c in v + w { }
    PlainClosed(w, mark, []);
    assert w + [] == w && Closed([], mark);
    var s := ['\\', mark] + w;
    assert s[2..] == w && Closed(s, mark);
    PlainClosed(v, mark, s);
    assert v + ['\\', mark] + w == v + s;
  }

  lemma {:induction false} PlainClosed(v: string, mark: char, rest: string)
    requires (forall c <- v :: c != mark && c != '\\') && Closed(rest, mark)
    ensures Closed(v + rest, mark)
  {
    if v == [] {
      assert v + rest == rest;
    } else {
      assert v[0] in v && forall c <- v[1..] :: c in v;
      PlainClosed(v[1..], mark, rest);
      assert (v + rest)[0] == v[0] && (v + rest)[1..] == v[1..] + rest;
    }
  }

  lemma OneClause(valid: string -> bool, field: string, op: Op, lit: Literal)
    requires FieldFits(field) && LiteralFits(op, lit)
    ensures Compile(valid, field + (OpText(op) + LiteralText(lit))) == BuildPredicate(valid, field, op, lit.text)
  {
    hide ReadField, ReadOp, ReadValue, FieldFits, LiteralFits, PeekKw, IsKeyword, BuildPredicate, ParseOr, LiteralText,
        Compile;
    var text := LiteralText(lit);
    var s := field + (OpText(op) + text);
    ReadLiteral(op, lit, []);
    assert text + [] == text;
    ReadOpOf(op, text);
    ReadFieldOf(field, OpText(op) + text);
    FieldIsNotEmpty(field);
    var r := BuildPredicate(valid, field, op, lit.text);
    match r {
      case Ok(p) => ReadsAlone(valid, s, p);
      case Err(e) => FailsAlone(valid, s, e);
    }
  }

  lemma FailsAlone(valid: string -> bool, s: string, e: Error)
    requires ParseClause(valid, s) == Err(e) && s != [] && s[0] != '(' && !IsSpace(s[0])
    requires !IsKeyword(PeekKw(s))
    ensures Compile(valid, s) == Err(e)
  {
    hide ParseClause, PeekKw, ConsumeKw, ParseAndItems, ParseOrItems, AndRest, OrRest;
    assert SkipWs(s) == s;
    assert ParseUnary(valid, s) == Err(e);
    AndItemsUnfold(valid, s);
    OrItemsUnfold(valid, s);
  }

  // ----- connectives -----

  /** `NOT` binds tighter than `AND`, and `AND` tighter than `OR`; parentheses
      override both, and a chain of one operator is one node. */
  lemma Precedence(valid: string -> bool, f: string, g: string, h: string, u: string, v: string, w: string)
    requires FieldFits(f) && FieldFits(g) && FieldFits(h)
    requires Closed(u, '"') && Closed(v, '"') && Closed(w, '"')
    ensures var a, b, c := f + "=\"" + u + "\"", g + "=\"" + v + "\"", h + "=\"" + w + "\"";
            var pa, pb, pc := P.FieldEquals(f, u), P.FieldEquals(g, v), P.FieldEquals(h, w);
            Compile(valid, a + " OR " + b + " AND NOT " + c) == Ok(P.Or([pa, P.And([pb, P.Not(pc)])]))
            && Compile(valid, a + " AND " + b + " OR " + c) == Ok(P.Or([P.And([pa, pb]), pc]))
            && Compile(valid, "(" + a + " OR " + b + ") AND " + c) == Ok(P.And([P.Or([pa, pb]), pc]))
            && Compile(valid, "NOT (" + a + " AND " + b + ")") == Ok(P.Not(P.And([pa, pb])))
            && Compile(valid, a + " OR " + b + " OR " + c) == Ok(P.Or([pa, pb, pc]))
            && Compile(valid, a + " AND " + b + " AND " + c) == Ok(P.And([pa, pb, pc]))
  {
    hide Compile, FieldFits, Closed, Text;
    var x, y, z := Clause(f, Eq, Quoted(u)), Clause(g, Eq, Quoted(v)), Clause(h, Eq, Quoted(w));
    ClausePart(valid, x);
    ClausePart(valid, y);
    ClausePart(valid, z);
    OrChain(valid, x, y, z);
    AndChain(valid, x, y, z);
    AndInOr(valid, x, y, z);
    NotInAnd(valid, x, y, z);
    OrInAnd(valid, x, y, z);
    AndInNot(valid, x, y, z);
  }

  predicate IsPart(valid: string -> bool, q: Query) { q.Clause? && Writable(valid, q) }

  lemma ClausePart(valid: string -> bool, q: Query)
    requires q.Clause? && q.op.Eq? && q.value.Quoted? && FieldFits(q.field) && Closed(q.value.text, '"')
    ensures IsPart(valid, q)
    ensures UnaryPart(valid, q) == P.FieldEquals(q.field, q.value.text)
    ensures Plain(q) == q.field + "=\"" + q.value.text + "\""
  {
    hide FieldFits, Closed;
  }

  lemma PartAlone(valid: string -> bool, q: Query)
    requires Writable(valid, q) && (q.Clause? || q.Negation?)
    ensures AndParts(valid, q) == [UnaryPart(valid, q)] && OrParts(valid, q) == [UnaryPart(valid, q)]
    ensures forall level: nat | level <= 2 :: Text(q, level) == Plain(q)
  {
    hide UnaryPart, Plain, Writable;
  }

  lemma ConjunctionFacts(valid: string -> bool, l: Query, r: Query)
    requires Writable(valid, l) && Writable(valid, r)
    ensures var q := Conjunction(l, r);
            Writable(valid, q) && Binding(q) == 1
            && AndParts(valid, q) == AndParts(valid, l) + AndParts(valid, r)
            && OrParts(valid, q) == [AndOf(AndParts(valid, q))] && UnaryPart(valid, q) == AndOf(AndParts(valid, q))
            && Plain(q) == Text(l, 1) + (" AND " + Text(r, 1))
            && Text(q, 0) == Plain(q) && Text(q, 1) == Plain(q) && Text(q, 2) == "(" + (Plain(q) + ")")
  {
    var q := Conjunction(l, r);
    assert OrParts(valid, q) == [AndOf(AndParts(valid, q))];
    assert " " + "AND" + " " == " AND ";
  }

  lemma DisjunctionFacts(valid: string -> bool, l: Query, r: Query)
    requires Writable(valid, l) && Writable(valid, r)
    ensures var q := Disjunction(l, r);
            Writable(valid, q) && Binding(q) == 0
            && OrParts(valid, q) == OrParts(valid, l) + OrParts(valid, r)
            && AndParts(valid, q) == [UnaryPart(valid, q)] && UnaryPart(valid, q) == OrOf(OrParts(valid, q))
            && Plain(q) == Text(l, 0) + (" OR " + Text(r, 0))
            && Text(q, 0) == Plain(q) && Text(q, 1) == "(" + (Plain(q) + ")")
  {
    assert " " + "OR" + " " == " OR ";
  }

  lemma NegationFacts(valid: string -> bool, inner: Query)
    requires Writable(valid, inner)
    ensures var q := Negation(inner);
            Writable(valid, q) && UnaryPart(valid, q) == P.Not(UnaryPart(valid, inner))
            && AndParts(valid, q) == [UnaryPart(valid, q)] && OrParts(valid, q) == [UnaryPart(valid, q)]
            && Plain(q) == "NOT " + Text(inner, 2) && Text(q, 0) == Plain(q) && Text(q, 1) == Plain(q)
  {
    var q := Negation(inner);
    assert AndParts(valid, q) == [UnaryPart(valid, q)];
  }

  // Each text below is what the tree named in its proof prints.

  lemma OrChain(valid: string -> bool, x: Query, y: Query, z: Query)
    requires IsPart(valid, x) && IsPart(valid, y) && IsPart(valid, z)
    ensures var a, b, c := UnaryPart(valid, x), UnaryPart(valid, y), UnaryPart(valid, z);
            Compile(valid, Plain(x) + " OR " + Plain(y) + " OR " + Plain(z))
            == Ok(P.Or([a, b, c]))
  {
    hide *;
    Parts(valid, x, y, z);
    var a, b, c := UnaryPart(valid, x), UnaryPart(valid, y), UnaryPart(valid, z);
    var q := Disjunction(x, Disjunction(y, z));
    DisjunctionFacts(valid, y, z);
    DisjunctionFacts(valid, x, q.right);
    Three(a, b, c);
    Several([a, b, c]);
    Glue(Plain(x), " OR ", Plain(y), " OR ", Plain(z));
    CompilesTo(valid, q, Plain(x) + " OR " + Plain(y) + " OR " + Plain(z));
  }

  lemma AndChain(valid: string -> bool, x: Query, y: Query, z: Query)
    requires IsPart(valid, x) && IsPart(valid, y) && IsPart(valid, z)
    ensures var a, b, c := UnaryPart(valid, x), UnaryPart(valid, y), UnaryPart(valid, z);
            Compile(valid, Plain(x) + " AND " + Plain(y) + " AND " + Plain(z))
            == Ok(P.And([a, b, c]))
  {
    hide *;
    Parts(valid, x, y, z);
    var a, b, c := UnaryPart(valid, x), UnaryPart(valid, y), UnaryPart(valid, z);
    var q := Conjunction(x, Conjunction(y, z));
    ConjunctionFacts(valid, y, z);
    ConjunctionFacts(valid, x, q.right);
    Three(a, b, c);
    Several([a, b, c]);
    One(P.And([a, b, c]));
    Glue(Plain(x), " AND ", Plain(y), " AND ", Plain(z));
    CompilesTo(valid, q, Plain(x) + " AND " + Plain(y) + " AND " + Plain(z));
  }

  lemma AndInOr(valid: string -> bool, x: Query, y: Query, z: Query)
    requires IsPart(valid, x) && IsPart(valid, y) && IsPart(valid, z)
    ensures var a, b, c := UnaryPart(valid, x), UnaryPart(valid, y), UnaryPart(valid, z);
            Compile(valid, Plain(x) + " AND " + Plain(y) + " OR " + Plain(z))
            == Ok(P.Or([P.And([a, b]), c]))
  {
    hide *;
    Parts(valid, x, y, z);
    var a, b, c := UnaryPart(valid, x), UnaryPart(valid, y), UnaryPart(valid, z);
    var q := Disjunction(Conjunction(x, y), z);
    ConjunctionFacts(valid, x, y);
    DisjunctionFacts(valid, q.left, z);
    Two(a, b);
    Two(P.And([a, b]), c);
    GlueLeft(Plain(x), " AND ", Plain(y), " OR ", Plain(z));
    CompilesTo(valid, q, Plain(x) + " AND " + Plain(y) + " OR " + Plain(z));
  }

  lemma NotInAnd(valid: string -> bool, x: Query, y: Query, z: Query)
    requires IsPart(valid, x) && IsPart(valid, y) && IsPart(valid, z)
    ensures var a, b, c := UnaryPart(valid, x), UnaryPart(valid, y), UnaryPart(valid, z);
            Compile(valid, Plain(x) + " OR " + Plain(y) + " AND NOT " + Plain(z))
            == Ok(P.Or([a, P.And([b, P.Not(c)])]))
  {
    hide *;
    Parts(valid, x, y, z);
    var a, b, c := UnaryPart(valid, x), UnaryPart(valid, y), UnaryPart(valid, z);
    var q := Disjunction(x, Conjunction(y, Negation(z)));
    NegationFacts(valid, z);
    ConjunctionFacts(valid, y, q.right.right);
    DisjunctionFacts(valid, x, q.right);
    Two(b, P.Not(c));
    Two(a, P.And([b, P.Not(c)]));
    GlueNot(Plain(x), Plain(y), Plain(z));
    CompilesTo(valid, q, Plain(x) + " OR " + Plain(y) + " AND NOT " + Plain(z));
  }

  lemma OrInAnd(valid: string -> bool, x: Query, y: Query, z: Query)
    requires IsPart(valid, x) && IsPart(valid, y) && IsPart(valid, z)
    ensures var a, b, c := UnaryPart(valid, x), UnaryPart(valid, y), UnaryPart(valid, z);
            Compile(valid, "(" + Plain(x) + " OR " + Plain(y) + ") AND " + Plain(z))
            == Ok(P.And([P.Or([a, b]), c]))
  {
    hide *;
    Parts(valid, x, y, z);
    var a, b, c := UnaryPart(valid, x), UnaryPart(valid, y), UnaryPart(valid, z);
    var q := Conjunction(Disjunction(x, y), z);
    DisjunctionFacts(valid, x, y);
    ConjunctionFacts(valid, q.left, z);
    Two(a, b);
    Two(P.Or([a, b]), c);
    One(P.And([P.Or([a, b]), c]));
    GlueGroup(Plain(x), Plain(y), Plain(z));
    CompilesTo(valid, q, "(" + Plain(x) + " OR " + Plain(y) + ") AND " + Plain(z));
  }

  lemma AndInNot(valid: string -> bool, x: Query, y: Query, z: Query)
    requires IsPart(valid, x) && IsPart(valid, y) && IsPart(valid, z)
    ensures var a, b, c := UnaryPart(valid, x), UnaryPart(valid, y), UnaryPart(valid, z);
            Compile(valid, "NOT (" + Plain(x) + " AND " + Plain(y) + ")")
            == Ok(P.Not(P.And([a, b])))
  {
    hide *;
    Parts(valid, x, y, z);
    var a, b, c := UnaryPart(valid, x), UnaryPart(valid, y), UnaryPart(valid, z);
    var q := Negation(Conjunction(x, y));
    ConjunctionFacts(valid, x, y);
    NegationFacts(valid, q.inner);
    Two(a, b);
    One(P.Not(P.And([a, b])));
    GlueNotGroup(Plain(x), Plain(y));
    CompilesTo(valid, q, "NOT (" + Plain(x) + " AND " + Plain(y) + ")");
  }

  lemma Two(a: P.Predicate, b: P.Predicate)
    ensures [a] + [b] == [a, b] && OrOf([a, b]) == P.Or([a, b]) && AndOf([a, b]) == P.And([a, b])
  {
  }

  lemma Three(a: P.Predicate, b: P.Predicate, c: P.Predicate)
    ensures [a] + ([b] + [c]) == [a, b, c]
  {
  }

  lemma Glue(x: string, j: string, y: string, k: string, z: string)
    ensures x + (j + (y + (k + z))) == x + j + y + k + z
  {
  }

  lemma GlueLeft(x: string, j: string, y: string, k: string, z: string)
    ensures (x + (j + y)) + (k + z) == x + j + y + k + z
  {
  }

  lemma GlueNot(x: string, y: string, z: string)
    ensures x + (" OR " + (y + (" AND " + ("NOT " + z)))) == x + " OR " + y + " AND NOT " + z
  {
    assert " AND " + ("NOT " + z) == " AND NOT " + z;
  }

  lemma GlueGroup(x: string, y: string, z: string)
    ensures ("(" + ((x + (" OR " + y)) + ")")) + (" AND " + z) == "(" + x + " OR " + y + ") AND " + z
  {
    assert ")" + (" AND " + z) == ") AND " + z;
  }

  lemma GlueNotGroup(x: string, y: string)
    ensures "NOT " + ("(" + ((x + (" AND " + y)) + ")")) == "NOT (" + x + " AND " + y + ")"
  {
    assert "NOT " + "(" == "NOT (";
  }

  lemma Parts(valid: string -> bool, x: Query, y: Query, z: Query)
    requires IsPart(valid, x) && IsPart(valid, y) && IsPart(valid, z)
    ensures forall q <- [x, y, z] :: Writable(valid, q) && AndParts(valid, q) == [UnaryPart(valid, q)]
              && OrParts(valid, q) == [UnaryPart(valid, q)] && Text(q, 0) == Plain(q) && Text(q, 1) == Plain(q)
              && Text(q, 2) == Plain(q)
  {
    hide AndParts, OrParts, UnaryPart, Plain, Text, Writable;
    PartAlone(valid, x);
    PartAlone(valid, y);
    PartAlone(valid, z);
  }

  lemma One(p: P.Predicate)
    ensures OrOf([p]) == p && AndOf([p]) == p
  {
  }

  lemma Several(ps: seq<P.Predicate>)
    requires |ps| >= 2
    ensures OrOf(ps) == P.Or(ps) && AndOf(ps) == P.And(ps)
  {
  }

  lemma CompilesTo(valid: string -> bool, q: Query, text: string)
    requires Writable(valid, q) && Text(q, 0) == text
    ensures Compile(valid, text) == Ok(OrOf(OrParts(valid, q)))
  {
    hide Compile, OrOf, OrParts, Writable, Text;
    CompilePrinted(valid, q);
  }

  // ----- texts that are refused -----

  predicate AllSpace(s: string) { forall c <- s :: Blank(c) }

  lemma {:induction false} SkipsSpace(s: string)
    ensures SkipWs(s) == [] <==> AllSpace(s)
  {
    if s != [] {
      SkipsSpace(s[1..]);
      assert s[0] in s && forall c <- s[1..] :: c in s;
      assert forall c <- s :: c == s[0] || c in s[1..];
    }
  }

  /** Spaces alone are the empty query; after an expression only spaces may
      follow, unless a connective goes on with it. */
  lemma TrailingText(valid: string -> bool, q: Query, rest: string)
    requires Writable(valid, q) && EndsClause(rest) && PeekKw(rest) != "AND" && PeekKw(rest) != "OR"
    ensures Compile(valid, Print(q) + rest)
         == if AllSpace(rest) then Ok(OrOf(OrParts(valid, q))) else Err(TrailingInput)
    ensures AllSpace(rest) ==> Compile(valid, rest) == Err(EmptyQuery)
  {
    hide ParseOr, OrParts, Writable, Plain, EndsClause, PeekKw;
    PlainStarts(valid, q);
    ReadsOr(valid, q, rest);
    KeywordAfter(q, 0, rest, "OR");
    SkipsSpace(rest);
    assert SkipWs(Print(q) + rest) == Print(q) + rest;
  }

  /** A field alone, or followed by something that begins no operator, wants one;
      an operator wants a value behind it; a clause begins with no keyword and with
      no character that is not one of a field. */
  lemma ClauseRefused(valid: string -> bool, field: string, op: Op, c: char, rest: string)
    requires FieldFits(field)
    ensures Compile(valid, field) == Err(ExpectedOperator)
    ensures !IsFieldChar(c) && !Blank(c) && c !in "=~!<>" ==>
              Compile(valid, field + ([c] + rest)) == Err(ExpectedOperator)
    ensures rest == [] || rest[0] != '=' ==> Compile(valid, field + ("!" + rest)) == Err(ExpectedOperator)
    ensures Compile(valid, field + OpText(op)) == Err(ExpectedValue)
    ensures rest == [] || !IsLetter(rest[0]) ==>
              Compile(valid, "AND" + rest) == Err(KeywordAsField) && Compile(valid, "OR" + rest) == Err(KeywordAsField)
    ensures !IsFieldChar(c) && !Blank(c) && c != '(' && c as int != 11 ==>
              Compile(valid, [c] + rest) == Err(ExpectedField)
  {
    hide Compile, FieldFits;
    NoOperator(valid, field, []);
    assert field + [] == field;
    if !IsFieldChar(c) && !Blank(c) && c !in "=~!<>" {
      NoOperator(valid, field, [c] + rest);
    }
    if rest == [] || rest[0] != '=' {
      NoOperator(valid, field, "!" + rest);
    }
    NoValue(valid, field, op);
    if rest == [] || !IsLetter(rest[0]) {
      KeywordFirst(valid, "AND", rest);
      KeywordFirst(valid, "OR", rest);
    }
    if !IsFieldChar(c) && !Blank(c) && c != '(' && c as int != 11 {
      NoField(valid, c, rest);
    }
  }

  lemma {:induction false} FieldAlone(field: string)
    requires FieldFits(field)
    ensures field != [] && !IsSpace(field[0]) && field[0] != '(' && !IsKeyword(PeekKw(field))
    ensures ReadField(field) == Ok((field, []))
  {
    FieldRunOf(field, []);
    assert field + [] == field;
    assert field[0] in field;
    assert SkipWs(field) == field && TrimStart(field) == field;
    assert field[..|field|] == field;
  }

  lemma NoOperator(valid: string -> bool, field: string, rest: string)
    requires FieldFits(field) && (rest != [] ==> !IsFieldChar(rest[0]) && !IsSpace(rest[0]))
    requires ReadOp(rest) == Err(ExpectedOperator)
    ensures Compile(valid, field + rest) == Err(ExpectedOperator)
  {
    hide Compile, FieldFits, ReadField, ReadOp, ReadValue, PeekKw, IsKeyword, BuildPredicate;
    FieldIsNotEmpty(field);
    if rest == [] {
      assert field + rest == field;
      FieldAlone(field);
    } else {
      ReadFieldOf(field, rest);
    }
    FailsAlone(valid, field + rest, ExpectedOperator);
  }

  lemma NoValue(valid: string -> bool, field: string, op: Op)
    requires FieldFits(field)
    ensures Compile(valid, field + OpText(op)) == Err(ExpectedValue)
  {
    hide Compile, FieldFits, ReadField, PeekKw, IsKeyword, BuildPredicate;
    FieldIsNotEmpty(field);
    ReadFieldOf(field, OpText(op));
    OperatorAlone(op);
    hide ReadOp, ReadValue, OpText;
    FailsAlone(valid, field + OpText(op), ExpectedValue);
  }

  lemma OperatorAlone(op: Op)
    ensures ReadOp(OpText(op)) == Ok((op, [])) && ReadValue([], op) == Err(ExpectedValue)
    ensures OpText(op) != [] && !IsFieldChar(OpText(op)[0])
  {
    var s := OpText(op);
    assert SkipWs(s) == s;
    assert s[|s|..] == [];
  }

  lemma KeywordFirst(valid: string -> bool, kw: string, rest: string)
    requires (kw == "AND" || kw == "OR") && (rest == [] || !IsLetter(rest[0]))
    ensures Compile(valid, kw + rest) == Err(KeywordAsField)
  {
    var s := kw + rest;
    WholeAlphaRun(kw);
    AlphaRunOf(kw, rest);
    assert SkipWs(s) == s && TrimStart(s) == s && s[..|kw|] == kw;
    assert PeekKw(s) == kw;
    hide Compile, PeekKw, ReadOp, ReadValue, BuildPredicate, AlphaRun;
    assert ParseUnary(valid, s) == Err(KeywordAsField);
    UnaryFails(valid, s, KeywordAsField);
  }

  lemma NoField(valid: string -> bool, c: char, rest: string)
    requires !IsFieldChar(c) && !Blank(c) && c != '(' && c as int != 11
    ensures Compile(valid, [c] + rest) == Err(ExpectedField)
  {
    var s := [c] + rest;
    assert SkipWs(s) == s && TrimStart(s) == s;
    assert PeekKw(s) == [] by { assert AlphaRun(s) == 0; }
    assert FieldRun(s) == 0;
    hide Compile, PeekKw, ReadOp, ReadValue, BuildPredicate, FieldRun, AlphaRun;
    FailsAlone(valid, s, ExpectedField);
  }

  /** A group that is not closed is refused, whatever else could follow it. */
  lemma MissingClose(valid: string -> bool, q: Query, rest: string)
    requires Writable(valid, q) && AllSpace(rest)
    ensures Compile(valid, "(" + Print(q) + rest) == Err(ExpectedClose)
  {
    hide ParseOr, OrParts, Writable, Plain, PeekKw, AllSpace;
    SpaceEnds(rest);
    PlainStarts(valid, q);
    ReadsOr(valid, q, rest);
    KeywordAfter(q, 0, rest, "OR");
    SkipsSpace(rest);
    var inner := Print(q) + rest;
    assert "(" + Print(q) + rest == "(" + inner;
    GroupUnfold(valid, inner);
    UnaryFails(valid, "(" + inner, ExpectedClose);
  }

  lemma {:induction false} SpaceEnds(rest: string)
    requires AllSpace(rest)
    ensures EndsClause(rest) && PeekKw(rest) == []
  {
    if rest != [] {
      assert rest[0] in rest && forall c <- rest[1..] :: c in rest;
      SpaceEnds(rest[1..]);
    }
  }

  lemma UnaryFails(valid: string -> bool, s: string, e: Error)
    requires ParseUnary(valid, s) == Err(e) && s != [] && !IsSpace(s[0])
    ensures Compile(valid, s) == Err(e)
  {
    hide ParseUnary, PeekKw, ConsumeKw, ParseAndItems, ParseOrItems, AndRest, OrRest;
    assert SkipWs(s) == s;
    AndItemsUnfold(valid, s);
    OrItemsUnfold(valid, s);
  }
}
