/** Syslog messages of RFC 5424: the header reader, the STRUCTURED-DATA scanner
    and the field projection, against a printer for sections 6.2 and 6.3. */
module Syslog {
  import opened Common
  import opened Decimal
  import Rfc3339

  // ----- messages and their printed form -----

  datatype Param = Param(name: Bytes, value: Bytes)

  datatype Element = Element(id: Bytes, params: seq<Param>)

  datatype Message = Message(
    pri: nat, version: nat, timestamp: Bytes, host: Bytes, app: Bytes, procid: Bytes, msgid: Bytes,
    elements: seq<Element>, msg: Option<Bytes>)

  /** A header token: not empty, no space. */
  predicate IsToken(s: Bytes) { s != [] && ' ' !in s }

  /** SD-NAME: a token without `=`, `]` and `"`. */
  predicate IsSdName(s: Bytes) { IsToken(s) && '=' !in s && ']' !in s && '"' !in s }

  predicate WellFormedElement(e: Element) {
    IsSdName(e.id) && forall p | p in e.params :: IsSdName(p.name)
  }

  const U32 := 0x1_0000_0000

  predicate WellFormed(m: Message) {
    m.pri < U32 && IsToken(m.timestamp) && IsToken(m.host) && IsToken(m.app)
    && IsToken(m.procid) && IsToken(m.msgid) && forall e | e in m.elements :: WellFormedElement(e)
  }

  /** Section 6.3.3: `"`, `\` and `]` are escaped with a backslash. */
  function Escape(v: Bytes): Bytes {
    if v == [] then [] else EscapeChar(v[0]) + Escape(v[1..])
  }

  function EscapeChar(c: char): Bytes {
    if c == '"' || c == '\\' || c == ']' then ['\\', c] else [c]
  }

  function ParamText(p: Param): Bytes { " " + p.name + "=\"" + Escape(p.value) + "\"" }

  function ParamsText(ps: seq<Param>): Bytes {
    if ps == [] then [] else ParamText(ps[0]) + ParamsText(ps[1..])
  }

  /** What stands between the brackets. */
  function Body(e: Element): Bytes { e.id + ParamsText(e.params) }

  function ElementsText(es: seq<Element>): Bytes {
    if es == [] then [] else "[" + Body(es[0]) + "]" + ElementsText(es[1..])
  }

  function SdText(es: seq<Element>): Bytes { if es == [] then "-" else ElementsText(es) }

  function MsgText(msg: Option<Bytes>): Bytes { if msg.Some? then " " + msg.value else [] }

  function Print(m: Message): Bytes {
    "<" + (Digits(m.pri) + (">" + (Digits(m.version) + (" " + (m.timestamp + (" " + (m.host + (" "
    + (m.app + (" " + (m.procid + (" " + (m.msgid + (" " + (SdText(m.elements) + MsgText(m.msg))))))))))))))))
  }

  // ----- the header reader, as a function on what is left of the line -----

  datatype Header = Header(
    severity: nat, timestamp: Bytes, hostname: Bytes, app: Bytes, procid: Bytes, msgid: Bytes,
    sd: Bytes, msg: Bytes)

  // The severity enum of the engine.
  const UNKNOWN := 0
  const DEBUG := 2
  const INFO := 3
  const WARN := 4
  const ERROR := 5
  const FATAL := 6

  function MapSeverity(sysv: nat): nat {
    if sysv <= 2 then FATAL
    else if sysv == 3 then ERROR
    else if sysv == 4 then WARN
    else if sysv == 5 || sysv == 6 then INFO
    else if sysv == 7 then DEBUG
    else UNKNOWN
  }

  /** Characters before the first space. */
  function TokenLength(s: Bytes): (n: nat)
    ensures n <= |s| && ' ' !in s[..n] && (n < |s| ==> s[n] == ' ')
  {
    if s == [] || s[0] == ' ' then 0
    else
      var n := 1 + TokenLength(s[1..]);
      assert s[..n] == [s[0]] + s[1..][..n - 1];
      n
  }

  /** One space-delimited token, and what follows its space. */
  function NextToken(s: Bytes): Option<(Bytes, Bytes)> {
    var n := TokenLength(s);
    if n == 0 then None
    else Some((s[..n], if n < |s| then s[n + 1..] else []))
  }

  /** What follows the first `]` outside an escape; `escaped` says that the
      first character is taken literally. */
  function CloseFrom(s: Bytes, escaped: bool): (r: Option<Bytes>)
    ensures r.Some? ==> |r.value| < |s|
  {
    if s == [] then None
    else if escaped then CloseFrom(s[1..], false)
    else if s[0] == ']' then Some(s[1..])
    else CloseFrom(s[1..], s[0] == '\\')
  }

  /** What follows a run of bracketed blocks. */
  function AfterBlocks(s: Bytes): (r: Option<Bytes>)
    ensures r.Some? ==> |r.value| <= |s|
    decreases |s|
  {
    if s != [] && s[0] == '[' then
      var rest :- CloseFrom(s[1..], false);
      AfterBlocks(rest)
    else Some(s)
  }

  /** The STRUCTURED-DATA region and what follows it. */
  function ReadSd(s: Bytes): Option<(Bytes, Bytes)> {
    if s == [] then Some(([], []))
    else if s[0] == '-' then
      if |s| == 1 || s[1] == ' ' then Some(([], s[1..])) else None
    else if s[0] != '[' then None
    else
      var rest :- AfterBlocks(s);
      Some((s[..|s| - |rest|], rest))
  }

  function DropSpace(s: Bytes): Bytes { if s != [] && s[0] == ' ' then s[1..] else s }

  /** The five tokens, STRUCTURED-DATA and MSG. */
  function ReadFields(severity: nat, s: Bytes): Option<Header> {
    var (timestamp, s1) :- NextToken(s);
    var (host, s2) :- NextToken(s1);
    var (app, s3) :- NextToken(s2);
    var (procid, s4) :- NextToken(s3);
    var (msgid, s5) :- NextToken(s4);
    var (sd, rest) :- ReadSd(s5);
    Some(Header(severity, timestamp, host, app, procid, msgid, sd, DropSpace(rest)))
  }

  /** PRI and VERSION: the severity and what follows the space. */
  function ReadPri(line: Bytes): Option<(nat, Bytes)> {
    if line == [] || line[0] != '<' then None else
    var s := line[1..];
    var n := Rfc3339.DigitRun(s);
    if n == 0 || n == |s| || s[n] != '>' || Value(s[..n]) >= U32 then None else
    var t := s[n + 1..];
    var v := Rfc3339.DigitRun(t);
    if v == 0 || v == |t| || t[v] != ' ' then None
    else Some((MapSeverity(Value(s[..n]) % 8), t[v + 1..]))
  }

  /** `parse_header`. */
  function ParseHeader(line: Bytes): Option<Header> {
    var (severity, rest) :- ReadPri(line);
    ReadFields(severity, rest)
  }

  // ----- scanning a printed element -----

  /** The escape state after text without a live `]`, or nothing if there is one. */
  function Skip(x: Bytes, escaped: bool): Option<bool> {
    if x == [] then Some(escaped)
    else if escaped then Skip(x[1..], false)
    else if x[0] == ']' then None
    else Skip(x[1..], x[0] == '\\')
  }

  lemma {:induction false} CloseAfterSkip(x: Bytes, rest: Bytes, escaped: bool)
    requires Skip(x, escaped).Some?
    ensures CloseFrom(x + rest, escaped) == CloseFrom(rest, Skip(x, escaped).value)
  {
    if x == [] {
      assert x + rest == rest;
    } else {
      assert (x + rest)[1..] == x[1..] + rest;
      CloseAfterSkip(x[1..], rest, !escaped && x[0] == '\\');
    }
  }

  lemma {:induction false} SkipConcat(x: Bytes, y: Bytes, escaped: bool)
    requires Skip(x, escaped).Some?
    ensures Skip(x + y, escaped) == Skip(y, Skip(x, escaped).value)
  {
    if x == [] {
      assert x + y == y;
    } else {
      assert (x + y)[1..] == x[1..] + y;
      SkipConcat(x[1..], y, !escaped && x[0] == '\\');
    }
  }

  lemma {:induction false} SkipName(x: Bytes, escaped: bool)
    requires ']' !in x
    ensures Skip(x, escaped).Some?
  {
    if x != [] {
      SkipName(x[1..], !escaped && x[0] == '\\');
    }
  }

  lemma SkipEscapedChar(c: char)
    ensures Skip(EscapeChar(c), false) == Some(false)
  {
    assert ['\\', c][1..] == [c];
    assert Skip([c], true) == Skip([], false);
  }

  lemma {:induction false} SkipEscaped(v: Bytes)
    ensures Skip(Escape(v), false) == Some(false)
  {
    if v != [] {
      SkipEscapedChar(v[0]);
      SkipConcat(EscapeChar(v[0]), Escape(v[1..]), false);
      SkipEscaped(v[1..]);
    }
  }

  /** A character that is neither `\` nor `]` ends every escape. */
  lemma SkipOne(c: char, escaped: bool)
    requires c != '\\' && c != ']'
    ensures Skip([c], escaped) == Some(false)
  {
  }

  lemma SkipParam(p: Param, escaped: bool)
    requires IsSdName(p.name)
    ensures Skip(ParamText(p), escaped) == Some(false)
  {
    hide Skip, Escape;
    SkipOne(' ', escaped);
    SkipConcat(" ", p.name, escaped);
    SkipName(p.name, false);
    var x := " " + p.name;
    var e := Skip(x, escaped).value;
    SkipOne('=', e);
    SkipConcat(x, "=", escaped);
    SkipOne('"', false);
    SkipConcat(x + "=", "\"", escaped);
    assert x + "=" + "\"" == x + "=\"";
    SkipEscaped(p.value);
    SkipConcat(x + "=\"", Escape(p.value), escaped);
    SkipConcat(x + "=\"" + Escape(p.value), "\"", escaped);
  }

  lemma {:induction false} SkipParams(ps: seq<Param>, escaped: bool)
    requires forall p | p in ps :: IsSdName(p.name)
    ensures Skip(ParamsText(ps), escaped) == Some(if ps == [] then escaped else false)
  {
    hide ParamText;
    if ps != [] {
      SkipParam(ps[0], escaped);
      SkipConcat(ParamText(ps[0]), ParamsText(ps[1..]), escaped);
      SkipParams(ps[1..], false);
    }
  }

  /** An element without parameters whose SD-ID ends in an unpaired backslash:
      the scanner takes its closing bracket for an escaped one. */
  predicate HidesBracket(e: Element) { e.params == [] && Skip(e.id, false) == Some(true) }

  lemma SkipBody(e: Element)
    requires WellFormedElement(e)
    ensures Skip(Body(e), false) == Some(HidesBracket(e))
  {
    hide Skip, ParamsText;
    SkipName(e.id, false);
    SkipParams(e.params, Skip(e.id, false).value);
    SkipConcat(e.id, ParamsText(e.params), false);
  }

  /** What the block scanner does on printed elements followed by `rest`. */
  function Leftover(es: seq<Element>, rest: Bytes): Option<Bytes>
    requires es != []
  {
    if HidesBracket(es[|es| - 1]) then
      var after :- CloseFrom(rest, false);
      AfterBlocks(after)
    else AfterBlocks(rest)
  }

  lemma {:induction false} BlocksOfElements(es: seq<Element>, rest: Bytes)
    requires es != [] && forall e | e in es :: WellFormedElement(e)
    ensures AfterBlocks(ElementsText(es) + rest) == Leftover(es, rest)
  {
    hide Skip, CloseFrom, Body, HidesBracket, ElementsText, WellFormedElement;
    var e, more := es[0], ElementsText(es[1..]) + rest;
    FirstElement(es, rest);
    SkipBody(e);
    CloseAfterSkip(Body(e), "]" + more, false);
    CloseBracket(more, HidesBracket(e));
    if |es| == 1 {
      assert more == rest;
    } else {
      BlocksOfElements(es[1..], rest);
      if HidesBracket(e) {
        OpenBracketIsPlain(es[1..], rest);
      }
    }
  }

  lemma FirstElement(es: seq<Element>, rest: Bytes)
    requires es != []
    ensures var s := ElementsText(es) + rest;
            s != [] && s[0] == '[' && s[1..] == Body(es[0]) + ("]" + (ElementsText(es[1..]) + rest))
    ensures |es| == 1 ==> ElementsText(es[1..]) + rest == rest
  {
    var b, more := Body(es[0]), ElementsText(es[1..]);
    assert ElementsText(es) == "[" + b + "]" + more;
    Regroup(b, more, rest);
  }

  lemma Regroup(b: Bytes, more: Bytes, rest: Bytes)
    ensures ("[" + b + "]" + more + rest)[1..] == b + ("]" + (more + rest))
  {
  }

  lemma CloseBracket(more: Bytes, escaped: bool)
    ensures CloseFrom("]" + more, escaped) == if escaped then CloseFrom(more, false) else Some(more)
  {
    assert ("]" + more)[1..] == more;
  }

  /** Inside a block the next opening bracket is an ordinary character, so a
      hidden bracket merges two blocks and the scan goes on as before. */
  lemma OpenBracketIsPlain(es: seq<Element>, rest: Bytes)
    requires es != []
    ensures var s := ElementsText(es) + rest;
            s != [] && s[0] == '[' && CloseFrom(s, false) == CloseFrom(s[1..], false)
  {
  }

  // ----- when the header reader recovers a printed message -----

  function Expected(m: Message): Header {
    Header(MapSeverity(m.pri % 8), m.timestamp, m.host, m.app, m.procid, m.msgid,
           ElementsText(m.elements), if m.msg.Some? then m.msg.value else [])
  }

  /** The condition a writer can check: the last element must not hide its
      closing bracket. */
  predicate BracketVisible(es: seq<Element>) { es == [] || !HidesBracket(es[|es| - 1]) }

  lemma {:induction false} TokenLengthOf(t: Bytes, rest: Bytes)
    requires ' ' !in t && (rest == [] || rest[0] == ' ')
    ensures TokenLength(t + rest) == |t|
  {
    if t == [] {
      assert t + rest == rest;
    } else {
      assert (t + rest)[1..] == t[1..] + rest;
      TokenLengthOf(t[1..], rest);
    }
  }

  lemma NextTokenOf(t: Bytes, rest: Bytes)
    requires IsToken(t)
    ensures NextToken(t + (" " + rest)) == Some((t, rest))
  {
    hide TokenLength;
    TokenLengthOf(t, " " + rest);
    assert (t + (" " + rest))[..|t|] == t;
    assert (t + (" " + rest))[|t| + 1..] == rest;
  }

  /** The header prefix read step by step, for given lengths of the two numbers. */
  lemma ReadPriSteps(s: Bytes, t: Bytes, n: nat, v: nat)
    requires n == Rfc3339.DigitRun(s) && 0 < n < |s| && s[n] == '>' && Value(s[..n]) < U32 && t == s[n + 1..]
    requires v == Rfc3339.DigitRun(t) && 0 < v < |t| && t[v] == ' '
    ensures ReadPri("<" + s) == Some((MapSeverity(Value(s[..n]) % 8), t[v + 1..]))
  {
    hide MapSeverity, Value, Rfc3339.DigitRun;
    assert ("<" + s)[1..] == s;
  }

  lemma ReadPriOf(pri: nat, version: nat, rest: Bytes)
    requires pri < U32
    ensures ReadPri("<" + (Digits(pri) + (">" + (Digits(version) + (" " + rest)))))
         == Some((MapSeverity(pri % 8), rest))
  {
    hide ReadPri, MapSeverity, Digits, Value, Rfc3339.DigitRun;
    var t := Digits(version) + (" " + rest);
    var s := Digits(pri) + (">" + t);
    DigitsThen(pri, '>', t);
    DigitsThen(version, ' ', rest);
    ReadPriSteps(s, t, Rfc3339.DigitRun(s), Rfc3339.DigitRun(t));
  }

  lemma DigitsThen(n: nat, stop: char, rest: Bytes)
    requires !IsDigit(stop)
    ensures var s := Digits(n) + ([stop] + rest);
            var k := Rfc3339.DigitRun(s);
            0 < k < |s| && s[k] == stop && s[k + 1..] == rest && Value(s[..k]) == n
  {
    hide Digits, Value, Rfc3339.DigitRun;
    var s := Digits(n) + ([stop] + rest);
    Rfc3339.DigitRunStops(Digits(n), [stop] + rest);
    ValueOfDigits(n);
    assert s[..|Digits(n)|] == Digits(n) && s[|Digits(n)| + 1..] == rest;
  }

  lemma ReadFieldsOf(m: Message, tail: Bytes)
    requires WellFormed(m)
    ensures ReadFields(MapSeverity(m.pri % 8),
              m.timestamp + (" " + (m.host + (" " + (m.app + (" " + (m.procid + (" " + (m.msgid + (" " + tail))))))))))
         == match ReadSd(tail)
            case Some((sd, rest)) => Some(Expected(m).(sd := sd, msg := DropSpace(rest)))
            case None => None
  {
    hide NextToken, ReadSd, MapSeverity, ElementsText, IsToken, WellFormedElement;
    NextTokenOf(m.msgid, tail);
    var s4 := m.msgid + (" " + tail);
    NextTokenOf(m.procid, s4);
    var s3 := m.procid + (" " + s4);
    NextTokenOf(m.app, s3);
    var s2 := m.app + (" " + s3);
    NextTokenOf(m.host, s2);
    NextTokenOf(m.timestamp, m.host + (" " + s2));
  }

  lemma SdOfNil(msg: Option<Bytes>)
    ensures ReadSd("-" + MsgText(msg)) == Some(([], MsgText(msg)))
  {
    assert ("-" + MsgText(msg))[1..] == MsgText(msg);
  }

  /** The STRUCTURED-DATA region read is the printed one exactly when the last
      bracket is visible. */
  lemma SdRecoveredIff(es: seq<Element>, msg: Option<Bytes>)
    requires forall e | e in es :: WellFormedElement(e)
    ensures ReadSd(SdText(es) + MsgText(msg)) == Some((ElementsText(es), MsgText(msg)))
        <==> BracketVisible(es)
    ensures !BracketVisible(es) && ReadSd(SdText(es) + MsgText(msg)).Some?
        ==> ReadSd(SdText(es) + MsgText(msg)).value.0 != ElementsText(es)
  {
    hide CloseFrom, HidesBracket;
    if es == [] {
      SdOfNil(msg);
    } else {
      var s := ElementsText(es) + MsgText(msg);
      BlocksOfElements(es, MsgText(msg));
      assert s[0] == '[';
      assert s[..|ElementsText(es)|] == ElementsText(es);
      assert AfterBlocks(MsgText(msg)) == Some(MsgText(msg));
    }
  }

  /** Every header token, the STRUCTURED-DATA region and MSG are recovered from
      a printed message exactly when the last element does not hide its
      closing bracket. */
  lemma HeaderRecoveredIff(m: Message)
    requires WellFormed(m)
    ensures ParseHeader(Print(m)) == Some(Expected(m)) <==> BracketVisible(m.elements)
  {
    hide ReadPri, ReadFields, ReadSd, Digits, MapSeverity, ElementsText, SdText, IsToken,
        WellFormedElement, BracketVisible;
    var tail := SdText(m.elements) + MsgText(m.msg);
    ReadPriOf(m.pri, m.version,
      m.timestamp + (" " + (m.host + (" " + (m.app + (" " + (m.procid + (" " + (m.msgid + (" " + tail))))))))));
    ReadFieldsOf(m, tail);
    SdRecoveredIff(m.elements, m.msg);
    MsgRecovered(m.msg);
  }

  /** The header of a printed message is read: the last bracket is visible, or
      MSG happens to hold another one that ends the region. */
  predicate HeaderReads(m: Message) {
    BracketVisible(m.elements) || Leftover(m.elements, MsgText(m.msg)).Some?
  }

  /** Then the region read is the printed one and possibly more of the text. */
  lemma RegionRead(es: seq<Element>, msg: Option<Bytes>) returns (more: Bytes)
    requires forall e | e in es :: WellFormedElement(e)
    ensures more == [] || more[0] == ' '
    ensures var r := ReadSd(SdText(es) + MsgText(msg));
            if BracketVisible(es) || Leftover(es, MsgText(msg)).Some? then
              r.Some? && r.value.0 == ElementsText(es) + more
              && (!BracketVisible(es) ==> msg.Some? && |r.value.1| < |msg.value|)
              && r.value.1 == (if BracketVisible(es) then MsgText(msg) else Leftover(es, MsgText(msg)).value)
            else r.None?
  {
    hide CloseFrom, HidesBracket, ElementsText, Leftover, AfterBlocks;
    more := [];
    var text := MsgText(msg);
    if BracketVisible(es) {
      SdRecoveredIff(es, msg);
      assert ElementsText(es) + [] == ElementsText(es);
    } else {
      BlocksOfElements(es, text);
      StartsBlocks(es);
      var left := Leftover(es, text);
      if left.Some? {
        LeftoverIsShort(es, text);
        HiddenLeftover(es, msg);
        more := text[..|text| - |left.value|];
        assert (ElementsText(es) + text)[..|ElementsText(es)| + |more|] == ElementsText(es) + more;
      }
    }
  }

  lemma StartsBlocks(es: seq<Element>)
    requires es != []
    ensures ElementsText(es) != [] && ElementsText(es)[0] == '['
  {
  }

  lemma LeftoverIsShort(es: seq<Element>, rest: Bytes)
    requires es != [] && Leftover(es, rest).Some?
    ensures |Leftover(es, rest).value| <= |rest|
  {
  }

  lemma HiddenLeftover(es: seq<Element>, msg: Option<Bytes>)
    requires !BracketVisible(es) && Leftover(es, MsgText(msg)).Some?
    ensures msg.Some? && |Leftover(es, MsgText(msg)).value| < |msg.value|
  {
    hide HidesBracket, AfterBlocks;
    if msg.Some? {
      assert (" " + msg.value)[1..] == msg.value;
      assert CloseFrom(" " + msg.value, false) == CloseFrom(msg.value, false);
    }
  }

  /** The text read: all of MSG, or what is left of it behind the bracket that ends
      the region. */
  function MsgRead(m: Message): Bytes
    requires HeaderReads(m)
  {
    if !BracketVisible(m.elements) then DropSpace(Leftover(m.elements, MsgText(m.msg)).value)
    else if m.msg.Some? then m.msg.value else []
  }

  /** Exactly then: every header token is recovered, and the region begins with
      the printed elements; otherwise nothing is read. A region that goes on into
      MSG leaves less than all of it. */
  lemma HeaderReadIff(m: Message) returns (more: Bytes)
    requires WellFormed(m)
    ensures more == [] || more[0] == ' '
    ensures var h := ParseHeader(Print(m));
            if HeaderReads(m) then
              h.Some? && h.value == Expected(m).(sd := ElementsText(m.elements) + more, msg := h.value.msg)
              && (!BracketVisible(m.elements) ==> m.msg.Some? && |h.value.msg| < |m.msg.value|)
              && h.value.msg == MsgRead(m)
            else h.None?
  {
    hide ReadPri, ReadFields, ReadSd, Digits, MapSeverity, ElementsText, SdText, IsToken,
        WellFormedElement, BracketVisible, Leftover;
    var tail := SdText(m.elements) + MsgText(m.msg);
    ReadPriOf(m.pri, m.version,
      m.timestamp + (" " + (m.host + (" " + (m.app + (" " + (m.procid + (" " + (m.msgid + (" " + tail))))))))));
    ReadFieldsOf(m, tail);
    MsgRecovered(m.msg);
    more := RegionRead(m.elements, m.msg);
  }

  /** A well-formed message whose bracket is hidden: the SD-ID ends in one
      backslash and there are no parameters. */
  lemma HiddenBracketWitness() returns (m: Message)
    ensures WellFormed(m) && ParseHeader(Print(m)) != Some(Expected(m))
  {
    m := Message(134, 1, "-", "h", "a", "-", "-", [Element("x\\", [])], Some("done"));
    assert Skip("x\\", false) == Some(true) by {
      assert "x\\"[1..] == "\\" && "\\"[1..] == "";
      assert Skip("\\", false) == Skip("", true);
    }
    hide ParseHeader, Print;
    HeaderRecoveredIff(m);
  }

  lemma MsgRecovered(msg: Option<Bytes>)
    ensures DropSpace(MsgText(msg)) == if msg.Some? then msg.value else []
  {
  }

  // ----- projection of structured data -----

  /** The escapes of a quoted value undone, up to and over the closing quote. */
  function Unescape(s: Bytes): (r: (Bytes, Bytes))
    ensures |r.1| <= |s|
  {
    if s == [] then ([], [])
    else if s[0] == '"' then ([], s[1..])
    else if s[0] == '\\' && |s| > 1 then
      var (v, rest) := Unescape(s[2..]);
      ([s[1]] + v, rest)
    else
      var (v, rest) := Unescape(s[1..]);
      ([s[0]] + v, rest)
  }

  function NameLength(s: Bytes): (n: nat)
    ensures n <= |s|
  {
    if s == [] || s[0] == '=' || s[0] == ']' || s[0] == ' ' then 0 else 1 + NameLength(s[1..])
  }

  function IdLength(s: Bytes): (n: nat)
    ensures n <= |s|
  {
    if s == [] || s[0] == ' ' || s[0] == ']' then 0 else 1 + IdLength(s[1..])
  }

  function DropSpaces(s: Bytes): (r: Bytes)
    ensures |r| <= |s|
  {
    if s != [] && s[0] == ' ' then DropSpaces(s[1..]) else s
  }

  /** The parameters of the element asked for, after its SD-ID. */
  function FindParam(s: Bytes, want: Bytes): Option<Bytes>
    decreases |s|
  {
    if s == [] || s[0] == ']' then None else
    var t := DropSpaces(s);
    if t == [] || t[0] == ']' then None else
    var n := NameLength(t);
    if n == |t| || t[n] != '=' || n + 1 == |t| || t[n + 1] != '"' then None else
    var (value, rest) := Unescape(t[n + 2..]);
    if t[..n] == want then Some(value) else FindParam(rest, want)
  }

  /** `project_structured_data`, with the key already cut at its first dot. */
  function ProjectSd(sd: Bytes, wantId: Bytes, wantKey: Option<Bytes>): Option<Bytes>
    decreases |sd|
  {
    if sd == [] || sd[0] != '[' then None else
    var n := IdLength(sd[1..]);
    var s := sd[1..][n..];
    if sd[1..][..n] == wantId then
      (if wantKey.Some? then FindParam(s, wantKey.value) else Some([]))
    else
      var rest :- CloseFrom(s, false);
      ProjectSd(rest, wantId, wantKey)
  }

  function NilToNone(b: Bytes): Option<Bytes> { if b == "-" then None else Some(b) }

  function SeverityName(s: nat): Bytes {
    if s == 1 then "trace" else if s == DEBUG then "debug" else if s == INFO then "info"
    else if s == WARN then "warn" else if s == ERROR then "error" else if s == FATAL then "fatal" else "?"
  }

  /** Position of the first dot of a key, or its length. */
  function DotAt(key: Bytes): (n: nat)
    ensures n <= |key| && '.' !in key[..n] && (n < |key| ==> key[n] == '.')
  {
    if key == [] || key[0] == '.' then 0
    else
      var n := 1 + DotAt(key[1..]);
      assert key[..n] == [key[0]] + key[1..][..n - 1];
      n
  }

  function ProjectKey(sd: Bytes, key: Bytes): Option<Bytes> {
    var n := DotAt(key);
    ProjectSd(sd, key[..n], if n < |key| then Some(key[n + 1..]) else None)
  }

  /** `project_field`. */
  function ProjectField(line: Bytes, key: Bytes): Option<Bytes> {
    var h :- ParseHeader(line);
    if key == "host" then NilToNone(h.hostname)
    else if key == "app" then NilToNone(h.app)
    else if key == "procid" then NilToNone(h.procid)
    else if key == "msgid" then NilToNone(h.msgid)
    else if key == "msg" then Some(h.msg)
    else if key == "ts" then NilToNone(h.timestamp)
    else if key == "level" then Some(SeverityName(h.severity))
    else ProjectKey(h.sd, key)
  }

  // ----- what a projection should give -----

  function FirstParam(ps: seq<Param>, name: Bytes): Option<Bytes> {
    if ps == [] then None
    else if ps[0].name == name then Some(ps[0].value)
    else FirstParam(ps[1..], name)
  }

  /** The first element with the SD-ID decides; with a name, its first
      parameter of that name. */
  function Lookup(es: seq<Element>, id: Bytes, name: Option<Bytes>): Option<Bytes> {
    if es == [] then None
    else if es[0].id == id then
      (if name.Some? then FirstParam(es[0].params, name.value) else Some([]))
    else Lookup(es[1..], id, name)
  }

  lemma {:induction false} UnescapeEscaped(v: Bytes, rest: Bytes)
    ensures Unescape(Escape(v) + ("\"" + rest)) == (v, rest)
  {
    hide Unescape;
    if v == [] {
      assert Escape(v) + ("\"" + rest) == "\"" + rest;
      UnescapeQuote(rest);
    } else {
      var tail := Escape(v[1..]) + ("\"" + rest);
      UnescapeEscaped(v[1..], rest);
      UnescapeHead(v[0], tail);
      assert v == [v[0]] + v[1..];
      assert Escape(v) + ("\"" + rest) == EscapeChar(v[0]) + tail;
    }
  }

  lemma UnescapeQuote(rest: Bytes)
    ensures Unescape("\"" + rest) == ([], rest)
  {
    assert ("\"" + rest)[1..] == rest;
  }

  lemma UnescapeHead(c: char, tail: Bytes)
    ensures Unescape(EscapeChar(c) + tail) == ([c] + Unescape(tail).0, Unescape(tail).1)
  {
    assert (['\\', c] + tail)[2..] == tail;
    assert ([c] + tail)[1..] == tail;
  }

  lemma {:induction false} NameLengthOf(x: Bytes, rest: Bytes)
    requires IsSdName(x) || x == []
    requires rest != [] && rest[0] == '='
    ensures NameLength(x + rest) == |x|
  {
    if x == [] {
      assert x + rest == rest;
    } else {
      assert (x + rest)[1..] == x[1..] + rest;
      NameLengthOf(x[1..], rest);
    }
  }

  lemma {:induction false} IdLengthOf(x: Bytes, rest: Bytes)
    requires IsSdName(x) || x == []
    requires rest != [] && (rest[0] == ' ' || rest[0] == ']')
    ensures IdLength(x + rest) == |x|
  {
    if x == [] {
      assert x + rest == rest;
    } else {
      assert (x + rest)[1..] == x[1..] + rest;
      IdLengthOf(x[1..], rest);
    }
  }

  lemma FindParamStep(p: Param, rest: Bytes, want: Bytes)
    requires IsSdName(p.name)
    ensures FindParam(ParamText(p) + rest, want)
         == if p.name == want then Some(p.value) else FindParam(rest, want)
  {
    hide Unescape, Escape, NameLength;
    var q := Escape(p.value) + ("\"" + rest);
    var t := p.name + ("=\"" + q);
    var s := ParamText(p) + rest;
    assert s == " " + t;
    assert s[1..] == t && t[0] != ' ' && t[0] != ']';
    assert DropSpaces(s) == t;
    NameLengthOf(p.name, "=\"" + q);
    assert t[..|p.name|] == p.name && t[|p.name| + 2..] == q;
    UnescapeEscaped(p.value, rest);
  }

  lemma {:induction false} FindsFirstParam(ps: seq<Param>, rest: Bytes, want: Bytes)
    requires forall p | p in ps :: IsSdName(p.name)
    requires rest != [] && rest[0] == ']'
    ensures FindParam(ParamsText(ps) + rest, want) == FirstParam(ps, want)
  {
    hide ParamText, FindParam;
    if ps == [] {
      assert ParamsText(ps) + rest == rest;
      FindParamEnd(rest, want);
    } else {
      assert ParamsText(ps) + rest == ParamText(ps[0]) + (ParamsText(ps[1..]) + rest);
      FindParamStep(ps[0], ParamsText(ps[1..]) + rest, want);
      FindsFirstParam(ps[1..], rest, want);
    }
  }

  lemma FindParamEnd(rest: Bytes, want: Bytes)
    requires rest != [] && rest[0] == ']'
    ensures FindParam(rest, want).None?
  {
  }

  /** Skipping an element that was not asked for stops after its own bracket,
      even one that the header scanner overlooks. */
  lemma SkipsElement(e: Element, more: Bytes)
    requires WellFormedElement(e)
    ensures CloseFrom(ParamsText(e.params) + ("]" + more), false) == Some(more)
  {
    hide Skip, ParamsText, CloseFrom;
    SkipParams(e.params, false);
    CloseAfterSkip(ParamsText(e.params), "]" + more, false);
    CloseBracket(more, false);
  }

  lemma ParamsStart(e: Element, more: Bytes)
    ensures var r := ParamsText(e.params) + ("]" + more);
            r[0] == ' ' || r[0] == ']'
  {
  }

  /** On the printed elements, and whatever text that begins no block follows
      them, the projection is the lookup, for any SD-ID and with or without a
      parameter name. */
  lemma {:induction false} ProjectSdIsLookup(es: seq<Element>, after: Bytes, id: Bytes, name: Option<Bytes>)
    requires (forall e | e in es :: WellFormedElement(e)) && (after == [] || after[0] != '[')
    ensures ProjectSd(ElementsText(es) + after, id, name) == Lookup(es, id, name)
  {
    hide FindParam, CloseFrom, ParamsText, IdLength, ElementsText;
    if es == [] {
      NoElements(after);
    } else {
      var e, more := es[0], ElementsText(es[1..]) + after;
      var rest := ParamsText(e.params) + ("]" + more);
      assert WellFormedElement(e);
      ElementsUnfold(es, after);
      ParamsStart(e, more);
      IdLengthOf(e.id, rest);
      assert (e.id + rest)[..|e.id|] == e.id && (e.id + rest)[|e.id|..] == rest;
      if e.id == id {
        if name.Some? {
          FindsFirstParam(e.params, "]" + more, name.value);
        }
      } else {
        SkipsElement(e, more);
        ProjectSdIsLookup(es[1..], after, id, name);
      }
    }
  }

  lemma NoElements(after: Bytes)
    ensures ElementsText([]) + after == after
  {
  }

  lemma ElementsUnfold(es: seq<Element>, after: Bytes)
    requires es != []
    ensures var s := ElementsText(es) + after;
            s != [] && s[0] == '['
            && s[1..] == es[0].id + (ParamsText(es[0].params) + ("]" + (ElementsText(es[1..]) + after)))
  {
    hide ParamsText;
    var ps, more := ParamsText(es[0].params), ElementsText(es[1..]);
    assert ElementsText(es) == "[" + (es[0].id + ps) + "]" + more;
    RegroupElement(es[0].id, ps, more, after);
  }

  lemma RegroupElement(id: Bytes, ps: Bytes, more: Bytes, after: Bytes)
    ensures ("[" + (id + ps) + "]" + more + after)[1..] == id + (ps + ("]" + (more + after)))
  {
  }

  lemma {:induction false} DotAtOf(id: Bytes, rest: Bytes)
    requires '.' !in id && (rest == [] || rest[0] == '.')
    ensures DotAt(id + rest) == |id|
  {
    if id == [] {
      assert id + rest == rest;
    } else {
      assert (id + rest)[1..] == id[1..] + rest;
      DotAtOf(id[1..], rest);
    }
  }

  /** A key with a dot, cut at its first one: the unescaped value of the first
      such parameter of the first element with that SD-ID, or nothing if there is
      none, exactly when the header is read or there is nothing to find. */
  lemma ProjectsDottedKey(m: Message, key: Bytes)
    requires WellFormed(m) && '.' in key
    ensures var n := DotAt(key);
            n < |key|
            && var found := Lookup(m.elements, key[..n], Some(key[n + 1..]));
               ProjectField(Print(m), key) == (if HeaderReads(m) then found else None)
  {
    hide ParseHeader, Print, ProjectSd, Lookup, ElementsText, HeaderReads, WellFormedElement, MapSeverity;
    var more := HeaderReadIff(m);
    var n := DotAt(key);
    DotIsFound(key);
    NoFixedKey(key, n);
    ProjectSdIsLookup(m.elements, more, key[..n], Some(key[n + 1..]));
  }

  lemma DotIsFound(key: Bytes)
    requires '.' in key
    ensures DotAt(key) < |key|
  {
    assert key[..|key|] == key;
  }

  /** `ID.name` for any SD-ID is the value of that parameter of that element
      exactly when there is none and the header is not read, or the header is read
      and the SD-ID has no dot, or the lookup under the part before its first dot
      gives the same. */
  lemma ProjectsParameter(m: Message, id: Bytes, name: Bytes)
    requires WellFormed(m)
    ensures var key := id + ("." + name);
            var n := DotAt(key);
            n < |key|
            && (ProjectField(Print(m), key) == Lookup(m.elements, id, Some(name))
                <==> if !HeaderReads(m) then Lookup(m.elements, id, Some(name)) == None
                     else '.' !in id || Lookup(m.elements, key[..n], Some(key[n + 1..]))
                                        == Lookup(m.elements, id, Some(name)))
  {
    hide ParseHeader, Print, ProjectField, Lookup, HeaderReads, WellFormed, DotAt;
    var key := id + ("." + name);
    assert key[|id|] == '.';
    ProjectsDottedKey(m, key);
    if '.' !in id {
      DotAtOf(id, "." + name);
      assert key[..|id|] == id && key[|id| + 1..] == name;
    }
  }

  /** A dotted SD-ID, split at its first dot. */
  lemma DottedParameterIff(m: Message, p: Bytes, q: Bytes, name: Bytes)
    requires WellFormed(m) && HeaderReads(m) && '.' !in p
    ensures var id := p + ("." + q);
            ProjectField(Print(m), id + ("." + name)) == Lookup(m.elements, id, Some(name))
            <==> Lookup(m.elements, p, Some(q + ("." + name))) == Lookup(m.elements, id, Some(name))
  {
    hide ParseHeader, Print, ProjectField, Lookup, HeaderReads, WellFormed, DotAt;
    var tail := q + ("." + name);
    assert p + ("." + q) + ("." + name) == p + ("." + tail);
    ProjectsDottedKey(m, p + ("." + tail));
    DotAtOf(p, "." + tail);
    assert (p + ("." + tail))[..|p|] == p && (p + ("." + tail))[|p| + 1..] == tail;
  }

  lemma DottedProbeIff(m: Message, p: Bytes, q: Bytes)
    requires WellFormed(m) && HeaderReads(m) && '.' !in p
    ensures var id := p + ("." + q);
            ProjectField(Print(m), id) == Lookup(m.elements, id, None)
            <==> Lookup(m.elements, p, Some(q)) == Lookup(m.elements, id, None)
  {
    hide ParseHeader, Print, ProjectField, Lookup, HeaderReads, WellFormed, DotAt;
    var id := p + ("." + q);
    assert id[|p|] == '.';
    ProjectsDottedKey(m, id);
    DotAtOf(p, "." + q);
    assert id[..|p|] == p && id[|p| + 1..] == q;
  }

  const DOTTED := Message(134, 1, "-", "h", "a", "-", "-", [Element("a.b", [Param("k", "v")])], None)

  lemma DottedIsWellFormed()
    ensures WellFormed(DOTTED)
  {
  }

  lemma DottedLookups()
    ensures Lookup(DOTTED.elements, "a.b", Some("k")) == Some("v") && Lookup(DOTTED.elements, "a.b", None) == Some([])
    ensures Lookup(DOTTED.elements, "a", Some("b.k")) == None && Lookup(DOTTED.elements, "a", Some("b")) == None
  {
    assert DOTTED.elements[1..] == [];
  }

  /** The element `[a.b k="v"]` is there, and neither its parameter nor the element
      is found. */
  lemma DottedWitness()
    ensures WellFormed(DOTTED)
    ensures Lookup(DOTTED.elements, "a.b", Some("k")) == Some("v") && ProjectField(Print(DOTTED), "a.b.k") == None
    ensures Lookup(DOTTED.elements, "a.b", None) == Some([]) && ProjectField(Print(DOTTED), "a.b") == None
  {
    hide ParseHeader, Print, ProjectField, DotAt, Skip, WellFormed, HeaderReads, Lookup;
    DottedIsWellFormed();
    DottedLookups();
    assert "a.b.k" == "a" + ("." + "b.k") && "a.b" == "a" + ("." + "b");
    ProjectsDottedKey(DOTTED, "a.b.k");
    ProjectsDottedKey(DOTTED, "a.b");
    DotAtOf("a", "." + "b.k");
    DotAtOf("a", "." + "b");
    assert "a.b.k"[..1] == "a" && "a.b"[..1] == "a";
  }

  lemma NoFixedKey(key: Bytes, k: nat)
    requires k < |key| && key[k] == '.'
    ensures !FixedKey(key)
  {
  }

  /** The keys that name a header field or the text. */
  predicate FixedKey(key: Bytes) {
    key == "host" || key == "app" || key == "procid" || key == "msgid" || key == "msg" || key == "ts" || key == "level"
  }

  /** What such a key gives, apart from the text. */
  function HeaderValue(m: Message, key: Bytes): Option<Bytes> {
    if key == "host" then NilToNone(m.host)
    else if key == "app" then NilToNone(m.app)
    else if key == "procid" then NilToNone(m.procid)
    else if key == "msgid" then NilToNone(m.msgid)
    else if key == "ts" then NilToNone(m.timestamp)
    else Some(SeverityName(MapSeverity(m.pri % 8)))
  }

  /** The header keys give the printed tokens, NIL as nothing, exactly when the
      header is read; MSG is given whole exactly when the last bracket is visible. An SD-ID
      of the same name is shadowed: the answer is never that of a probe that finds
      its element. */
  lemma ProjectsHeader(m: Message, key: Bytes)
    requires WellFormed(m) && FixedKey(key)
    ensures key != "msg" ==> ProjectField(Print(m), key) == (if HeaderReads(m) then HeaderValue(m, key) else None)
    ensures key == "msg" ==> (ProjectField(Print(m), key) == Some(if m.msg.Some? then m.msg.value else [])
                              <==> BracketVisible(m.elements))
    ensures key != "msg" ==> HeaderValue(m, key) != Some([])
  {
    hide ParseHeader, Print, ElementsText, WellFormedElement, MapSeverity, BracketVisible, Leftover;
    var more := HeaderReadIff(m);
    HeaderRecoveredIff(m);
  }

  // ----- what a printed message answers to any key -----

  /** The answer to a key, from the parts of the message. */
  function Answer(m: Message, key: Bytes): Option<Bytes> {
    if !HeaderReads(m) then None
    else if key == "msg" then Some(MsgRead(m))
    else if FixedKey(key) then HeaderValue(m, key)
    else if '.' in key then
      DotIsFound(key);
      Lookup(m.elements, key[..DotAt(key)], Some(key[DotAt(key) + 1..]))
    else Lookup(m.elements, key, None)
  }

  lemma ProjectsAnswer(m: Message, key: Bytes)
    requires WellFormed(m)
    ensures ProjectField(Print(m), key) == Answer(m, key)
  {
    if FixedKey(key) {
      hide ParseHeader, Print, ElementsText, WellFormedElement, MapSeverity, BracketVisible, Leftover, Lookup;
      var more := HeaderReadIff(m);
    } else if '.' in key {
      hide ParseHeader, Print, ProjectField, Lookup, HeaderReads, WellFormed, DotAt;
      ProjectsDottedKey(m, key);
    } else {
      hide ParseHeader, Print, ProjectSd, Lookup, ElementsText, HeaderReads, WellFormedElement, MapSeverity, DotAt;
      var more := HeaderReadIff(m);
      DotAtOf(key, []);
      assert key + [] == key && key[..|key|] == key;
      ProjectSdIsLookup(m.elements, more, key, None);
    }
  }

  /** The level a PRI stands for: its last three bits, from emergency to debug. */
  lemma LevelOfPri(m: Message)
    requires WellFormed(m) && HeaderReads(m)
    ensures var k := m.pri % 8;
            ProjectField(Print(m), "level")
            == Some(if k <= 2 then "fatal" else if k == 3 then "error" else if k == 4 then "warn"
                    else if k <= 6 then "info" else "debug")
    ensures TsAndLevel(Print(m)).1
         == [6, 6, 6, 5, 4, 3, 3, 2][m.pri % 8]
  {
    hide ParseHeader, Print, WellFormed, HeaderReads, ProjectField, Answer;
    ProjectsAnswer(m, "level");
    var more := HeaderReadIff(m);
    LevelAnswer(m);
  }

  lemma LevelAnswer(m: Message)
    requires HeaderReads(m)
    ensures Answer(m, "level") == Some(SeverityName(MapSeverity(m.pri % 8)))
  {
    hide Lookup, HeaderReads, DotAt, MsgRead;
  }

  /** So a probe of an SD-ID with such a name, apart from `msg`, is right exactly
      when there is no such element and the header, if read, has nothing there. */
  lemma ShadowedProbeIff(m: Message, id: Bytes)
    requires WellFormed(m) && FixedKey(id) && id != "msg"
    ensures ProjectField(Print(m), id) == Lookup(m.elements, id, None)
       <==> Lookup(m.elements, id, None) == None && (HeaderReads(m) ==> HeaderValue(m, id) == None)
  {
    hide ParseHeader, Print, ProjectField, Lookup, HeaderReads, WellFormed, FixedKey, HeaderValue;
    ProjectsHeader(m, id);
    ProbeAnswer(m.elements, id);
  }

  lemma {:induction false} ProbeAnswer(es: seq<Element>, id: Bytes)
    ensures Lookup(es, id, None) == None || Lookup(es, id, None) == Some([])
  {
    if es != [] {
      ProbeAnswer(es[1..], id);
    }
  }

  /** A bare SD-ID tells whether the element is present, exactly when the header
      is read and either it has no dot or the lookup that the dot makes of it gives
      the same, or the header is not read and the element is absent. */
  lemma ProbesElement(m: Message, id: Bytes)
    requires WellFormed(m) && !FixedKey(id)
    ensures var n := DotAt(id);
            ProjectField(Print(m), id) == Lookup(m.elements, id, None)
            <==> if !HeaderReads(m) then Lookup(m.elements, id, None) == None
                 else n == |id| || Lookup(m.elements, id[..n], Some(id[n + 1..])) == Lookup(m.elements, id, None)
    ensures Lookup(m.elements, id, None) == Some([]) <==> exists e :: e in m.elements && e.id == id
  {
    LookupProbe(m.elements, id);
    if '.' in id {
      hide ParseHeader, Print, ProjectField, Lookup, HeaderReads, WellFormed, DotAt;
      ProjectsDottedKey(m, id);
    } else {
      hide ParseHeader, Print, ProjectSd, Lookup, ElementsText, HeaderReads, WellFormedElement, MapSeverity, DotAt;
      var more := HeaderReadIff(m);
      DotAtOf(id, []);
      assert id + [] == id && id[..|id|] == id;
      ProjectSdIsLookup(m.elements, more, id, None);
    }
  }

  lemma {:induction false} LookupProbe(es: seq<Element>, id: Bytes)
    ensures Lookup(es, id, None) == Some([]) <==> exists e :: e in es && e.id == id
  {
    if es != [] {
      LookupProbe(es[1..], id);
      if es[0].id == id {
        assert es[0] in es;
      } else {
        assert forall e :: e in es <==> e == es[0] || e in es[1..];
      }
    }
  }

  // ----- the scanners as the source runs them -----

  method NextSpToken(line: Bytes, start: nat) returns (tok: Option<Bytes>, i: nat)
    requires start <= |line|
    ensures start <= i <= |line|
    ensures tok.None? <==> NextToken(line[start..]).None?
    ensures tok.Some? ==> NextToken(line[start..]) == Some((tok.value, line[i..]))
  {
    hide TokenLength;
    i := SpacePosition(line, start);
    if i == start { return None, i; }
    SliceOfSuffix(line, start, 0, i - start);
    tok := Some(line[start..i]);
    if i < |line| && line[i] == ' ' {
      SliceOfSuffix(line, start, i - start + 1, |line| - start);
      i := i + 1;
    } else {
      assert line[i..] == [];
    }
  }

  method SpacePosition(line: Bytes, start: nat) returns (i: nat)
    requires start <= |line|
    ensures start <= i <= |line| && i == start + TokenLength(line[start..])
  {
    i := start;
    while i < |line| && line[i] != ' '
      invariant start <= i <= |line|
      invariant TokenLength(line[start..]) == i - start + TokenLength(line[i..])
    {
      assert line[i..][1..] == line[i + 1..];
      i := i + 1;
    }
  }

  lemma SliceTail(line: Bytes, i: nat)
    requires i < |line|
    ensures line[i..] != [] && line[i..][0] == line[i] && line[i..][1..] == line[i + 1..]
  {
  }

  /** The scan for a bracket, in positions of the whole line. */
  lemma CloseFromAt(line: Bytes, i: nat)
    requires i <= |line|
    ensures CloseFrom(line[i..], false)
         == if i == |line| then None
            else if line[i] == ']' then Some(line[i + 1..])
            else if line[i] == '\\' && i + 1 < |line| then CloseFrom(line[i + 2..], false)
            else CloseFrom(line[i + 1..], false)
  {
    if i < |line| {
      SliceTail(line, i);
      if i + 1 < |line| {
        SliceTail(line, i + 1);
      }
    }
  }

  /** The inner loop of both scanners: a backslash takes the next byte along. */
  method SkipToBracket(line: Bytes, start: nat) returns (i: nat)
    requires start <= |line|
    ensures start <= i <= |line|
    ensures CloseFrom(line[start..], false) == if i < |line| then Some(line[i + 1..]) else None
  {
    hide CloseFrom;
    i := start;
    while i < |line| && line[i] != ']'
      invariant start <= i <= |line|
      invariant CloseFrom(line[start..], false) == CloseFrom(line[i..], false)
    {
      CloseFromAt(line, i);
      if line[i] == '\\' && i + 1 < |line| {
        i := i + 2;
        continue;
      }
      i := i + 1;
    }
    CloseFromAt(line, i);
  }

  method ReadStructuredData(line: Bytes, start: nat) returns (r: Option<(Bytes, nat)>)
    requires start <= |line|
    ensures r.None? <==> ReadSd(line[start..]).None?
    ensures r.Some? ==> start <= r.value.1 <= |line|
                        && ReadSd(line[start..]) == Some((r.value.0, line[r.value.1..]))
  {
    hide CloseFrom;
    if start >= |line| { return Some(([], start)); }
    if line[start] == '-' {
      var next := start + 1;
      assert line[start..][1..] == line[next..];
      if next >= |line| || line[next] == ' ' { return Some(([], next)); }
      return None;
    }
    if line[start] != '[' { return None; }
    var i := start;
    while i < |line| && line[i] == '['
      invariant start <= i <= |line|
      invariant AfterBlocks(line[start..]) == AfterBlocks(line[i..])
    {
      assert line[i..][1..] == line[i + 1..];
      i := SkipToBracket(line, i + 1);
      if i >= |line| { return None; }
      i := i + 1;
    }
    assert line[start..][..i - start] == line[start..i];
    r := Some((line[start..i], i));
  }

  /** The run of digits from `start`. */
  method DigitsLoop(line: Bytes, start: nat) returns (i: nat)
    requires start <= |line|
    ensures start <= i <= |line| && i == start + Rfc3339.DigitRun(line[start..])
  {
    i := start;
    while i < |line| && IsDigit(line[i])
      invariant start <= i <= |line|
      invariant Rfc3339.DigitRun(line[start..]) == i - start + Rfc3339.DigitRun(line[i..])
    {
      assert line[i..][1..] == line[i + 1..];
      i := i + 1;
    }
  }

  method PriAndVersion(line: Bytes) returns (r: Option<(nat, nat)>)
    ensures r.None? <==> ReadPri(line).None?
    ensures r.Some? ==> r.value.1 <= |line| && ReadPri(line) == Some((r.value.0, line[r.value.1..]))
  {
    hide Rfc3339.DigitRun, Value, MapSeverity;
    if line == [] || line[0] != '<' { return None; }
    var i := DigitsLoop(line, 1);
    ghost var s, n := line[1..], i - 1;
    if i == 1 || i >= |line| || line[i] != '>' { return None; }
    assert s[..n] == line[1..i] && s[n + 1..] == line[i + 1..];
    var pri := Value(line[1..i]);
    if pri >= U32 { return None; }
    var start := i + 1;
    i := DigitsLoop(line, start);
    ghost var t := line[start..];
    if i == start || i >= |line| || line[i] != ' ' { return None; }
    assert t[i - start + 1..] == line[i + 1..];
    r := Some((MapSeverity(pri % 8), i + 1));
  }

  method ParseHeaderLoop(line: Bytes) returns (r: Option<Header>)
    ensures r == ParseHeader(line)
  {
    hide ReadPri, NextToken, ReadSd;
    var head := PriAndVersion(line);
    if head.None? { return None; }
    var (severity, i0) := head.value;
    var timestamp, i1 := NextSpToken(line, i0);
    if timestamp.None? { return None; }
    var host, i2 := NextSpToken(line, i1);
    if host.None? { return None; }
    var app, i3 := NextSpToken(line, i2);
    if app.None? { return None; }
    var procid, i4 := NextSpToken(line, i3);
    if procid.None? { return None; }
    var msgid, i5 := NextSpToken(line, i4);
    if msgid.None? { return None; }
    var data := ReadStructuredData(line, i5);
    if data.None? { return None; }
    var (sd, i) := data.value;
    ghost var rest := line[i..];
    if i < |line| && line[i] == ' ' {
      assert rest[1..] == line[i + 1..];
      i := i + 1;
    }
    r := Some(Header(severity, timestamp.value, host.value, app.value, procid.value, msgid.value, sd, line[i..]));
  }

  method UnescapeLoop(sd: Bytes, start: nat) returns (value: Bytes, i: nat)
    requires start <= |sd|
    ensures start <= i <= |sd|
    ensures value == Unescape(sd[start..]).0 && sd[i..] == Unescape(sd[start..]).1
  {
    hide Unescape;
    ghost var goal := Unescape(sd[start..]);
    value, i := [], start;
    assert goal.0 == value + goal.0;
    while i < |sd| && sd[i] != '"'
      invariant start <= i <= |sd|
      invariant goal.0 == value + Unescape(sd[i..]).0 && goal.1 == Unescape(sd[i..]).1
    {
      UnescapeStep(sd, i);
      if sd[i] == '\\' && i + 1 < |sd| {
        value := value + [sd[i + 1]];
        i := i + 2;
      } else {
        value := value + [sd[i]];
        i := i + 1;
      }
    }
    UnescapeStep(sd, i);
    if i < |sd| {
      i := i + 1;
    }
  }

  lemma UnescapeStep(sd: Bytes, i: nat)
    requires i <= |sd|
    ensures Unescape(sd[i..])
         == (if i == |sd| then ([], [])
             else if sd[i] == '"' then ([], sd[i + 1..])
             else if sd[i] == '\\' && i + 1 < |sd| then
               ([sd[i + 1]] + Unescape(sd[i + 2..]).0, Unescape(sd[i + 2..]).1)
             else ([sd[i]] + Unescape(sd[i + 1..]).0, Unescape(sd[i + 1..]).1))
  {
    if i < |sd| {
      assert sd[i..][1..] == sd[i + 1..];
      if i + 1 < |sd| {
        assert sd[i..][2..] == sd[i + 2..];
      }
    }
  }

  method NameEnd(sd: Bytes, start: nat) returns (i: nat)
    requires start <= |sd|
    ensures start <= i <= |sd| && i == start + NameLength(sd[start..])
  {
    i := start;
    while i < |sd| && sd[i] != '=' && sd[i] != ']' && sd[i] != ' '
      invariant start <= i <= |sd|
      invariant NameLength(sd[start..]) == i - start + NameLength(sd[i..])
    {
      assert sd[i..][1..] == sd[i + 1..];
      i := i + 1;
    }
  }

  method SpacesEnd(sd: Bytes, start: nat) returns (i: nat)
    requires start <= |sd|
    ensures start <= i <= |sd| && sd[i..] == DropSpaces(sd[start..])
  {
    i := start;
    while i < |sd| && sd[i] == ' '
      invariant start <= i <= |sd|
      invariant DropSpaces(sd[start..]) == DropSpaces(sd[i..])
    {
      assert sd[i..][1..] == sd[i + 1..];
      i := i + 1;
    }
  }

  /** The parameter walk inside the element asked for. */
  method WalkParams(sd: Bytes, start: nat, want: Bytes) returns (r: Option<Bytes>)
    requires start <= |sd|
    ensures r == FindParam(sd[start..], want)
  {
    hide DropSpaces, NameLength, Unescape, FindParam;
    var i := start;
    while i < |sd| && sd[i] != ']'
      invariant start <= i <= |sd|
      invariant FindParam(sd[start..], want) == FindParam(sd[i..], want)
      decreases |sd| - i
    {
      FindParamUnfold(sd[i..], want);
      var p := SpacesEnd(sd, i);
      ghost var t := sd[p..];
      if p >= |sd| || sd[p] == ']' { return None; }
      var e := NameEnd(sd, p);
      var pk := sd[p..e];
      assert t[..e - p] == pk;
      if e >= |sd| || sd[e] != '=' { return None; }
      if e + 1 >= |sd| || sd[e + 1] != '"' { return None; }
      assert t[e - p + 2..] == sd[e + 2..];
      var value, after := UnescapeLoop(sd, e + 2);
      if pk == want { return Some(value); }
      i := after;
    }
    FindParamUnfold(sd[i..], want);
    r := None;
  }

  lemma FindParamUnfold(s: Bytes, want: Bytes)
    ensures FindParam(s, want)
         == (if s == [] || s[0] == ']' then None else
             var t := DropSpaces(s);
             if t == [] || t[0] == ']' then None else
             var n := NameLength(t);
             if n == |t| || t[n] != '=' || n + 1 == |t| || t[n + 1] != '"' then None else
             var u := Unescape(t[n + 2..]);
             if t[..n] == want then Some(u.0) else FindParam(u.1, want))
  {
    hide DropSpaces, NameLength, Unescape;
  }

  /** One block of the walk, in positions of the whole text. */
  lemma ProjectSdAt(sd: Bytes, i: nat, wantId: Bytes, wantKey: Option<Bytes>)
    requires i < |sd|
    ensures ProjectSd(sd[i..], wantId, wantKey)
         == if sd[i] != '[' then None
            else
              var e := i + 1 + IdLength(sd[i + 1..]);
              if sd[i + 1..e] == wantId then
                if wantKey.Some? then FindParam(sd[e..], wantKey.value) else Some([])
              else
                match CloseFrom(sd[e..], false)
                case Some(rest) => ProjectSd(rest, wantId, wantKey)
                case None => None
  {
    hide IdLength, CloseFrom, FindParam;
    assert sd[i..][1..] == sd[i + 1..];
    var n := IdLength(sd[i + 1..]);
    assert sd[i + 1..][..n] == sd[i + 1..i + 1 + n] && sd[i + 1..][n..] == sd[i + 1 + n..];
  }

  lemma ProjectSdEnd(wantId: Bytes, wantKey: Option<Bytes>)
    ensures ProjectSd([], wantId, wantKey) == None
  {
  }

  method ProjectStructuredData(sd: Bytes, key: Bytes) returns (r: Option<Bytes>)
    ensures r == ProjectKey(sd, key)
  {
    hide IdLength, CloseFrom, FindParam, DotAt, ProjectSd;
    var n := DotAt(key);
    var wantId := key[..n];
    var wantKey := if n < |key| then Some(key[n + 1..]) else None;
    var i := 0;
    assert sd[0..] == sd;
    while i < |sd|
      invariant i <= |sd|
      invariant ProjectSd(sd, wantId, wantKey) == ProjectSd(sd[i..], wantId, wantKey)
      decreases |sd| - i
    {
      ProjectSdAt(sd, i, wantId, wantKey);
      if sd[i] != '[' { return None; }
      i := i + 1;
      var e := IdEnd(sd, i);
      if sd[i..e] == wantId {
        if wantKey.None? { return Some([]); }
        r := WalkParams(sd, e, wantKey.value);
        return;
      }
      i := SkipToBracket(sd, e);
      if i >= |sd| { return None; }
      i := i + 1;
    }
    ProjectSdEnd(wantId, wantKey);
    assert sd[i..] == [];
    r := None;
  }

  method IdEnd(sd: Bytes, start: nat) returns (i: nat)
    requires start <= |sd|
    ensures start <= i <= |sd| && i == start + IdLength(sd[start..])
  {
    i := start;
    while i < |sd| && sd[i] != ' ' && sd[i] != ']'
      invariant start <= i <= |sd|
      invariant IdLength(sd[start..]) == i - start + IdLength(sd[i..])
    {
      assert sd[i..][1..] == sd[i + 1..];
      i := i + 1;
    }
  }

  // ----- timestamp and level -----

  function TimeOf(stamp: Bytes): int {
    if stamp == "-" then TS_UNTIMED else
    match Rfc3339.ParseRfc3339(stamp)
    case Some(t) => t
    case None => TS_UNTIMED
  }

  /** `ts_and_level`: the record's time and severity. */
  function TsAndLevel(line: Bytes): (int, nat) {
    match ParseHeader(line)
    case Some(h) => (TimeOf(h.timestamp), h.severity)
    case None => (TS_UNTIMED, UNKNOWN)
  }

  /** A message stamped by the repository's own printer is indexed at that
      time, to the millisecond, with the severity of its PRI, exactly when its
      header is read; otherwise it has neither. */
  lemma IndexesPrintedTime(m: Message, ts: int)
    requires WellFormed(m) && m.timestamp == Rfc3339.FormatTs(ts)
    ensures TsAndLevel(Print(m))
         == if !HeaderReads(m) then (TS_UNTIMED, UNKNOWN)
            else (if Rfc3339.YEAR_0 <= ts < Rfc3339.YEAR_10000 then ts - ts % 1000 else TS_UNTIMED,
                  MapSeverity(m.pri % 8))
  {
    hide ParseHeader, Print, Rfc3339.FormatTs, Rfc3339.ParseRfc3339, MapSeverity, WellFormed, HeaderReads;
    var more := HeaderReadIff(m);
    Rfc3339.FormatThenParse(ts);
    DashIsNoTime();
  }

  lemma DashIsNoTime()
    ensures Rfc3339.ParseRfc3339("-").None?
  {
  }
}
