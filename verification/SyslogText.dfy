/** Syslog lines as they are written: which part of the text each key answers
    with, under RFC 5424, section 6. */
module SyslogText {
  import opened Common
  import opened Decimal
  import opened Syslog

  predicate Word(s: Bytes) { s != [] && forall c <- s :: c != ' ' }

  predicate Name(s: Bytes) { s != [] && forall c <- s :: c != ' ' && c != '=' && c != ']' && c != '"' }

  function UnlessNil(s: Bytes): Option<Bytes> { if s == "-" then None else Some(s) }

  lemma Assoc(a: Bytes, b: Bytes, c: Bytes)
    ensures a + (b + c) == a + b + c
  {
  }

  /** The text of a message, its parts in the order of RFC 5424, section 6. */
  lemma PrintedText(m: Message)
    ensures Print(m) == "<" + Digits(m.pri) + ">" + Digits(m.version) + " " + m.timestamp + " " + m.host + " " + m.app
                        + " " + m.procid + " " + m.msgid + " " + (SdText(m.elements) + MsgText(m.msg))
  {
    hide SdText, MsgText, Digits;
    var z := SdText(m.elements) + MsgText(m.msg);
    var y := m.app + (" " + (m.procid + (" " + (m.msgid + (" " + z)))));
    var x := m.timestamp + (" " + (m.host + (" " + y)));
    var a := "<" + Digits(m.pri) + ">" + Digits(m.version) + " ";
    FirstParts(Digits(m.pri), Digits(m.version), x);
    MiddleParts(a, m.timestamp, m.host, y);
    LastParts(a + m.timestamp + " " + m.host + " ", m.app, m.procid, m.msgid, z);
  }

  lemma FirstParts(p: Bytes, v: Bytes, x: Bytes)
    ensures "<" + (p + (">" + (v + (" " + x)))) == "<" + p + ">" + v + " " + x
  {
    Assoc("<", p, ">" + (v + (" " + x)));
    Assoc("<" + p, ">", v + (" " + x));
    Assoc("<" + p + ">", v, " " + x);
    Assoc("<" + p + ">" + v, " ", x);
  }

  lemma MiddleParts(a: Bytes, t: Bytes, h: Bytes, y: Bytes)
    ensures a + (t + (" " + (h + (" " + y)))) == a + t + " " + h + " " + y
  {
    Assoc(a, t, " " + (h + (" " + y)));
    Assoc(a + t, " ", h + (" " + y));
    Assoc(a + t + " ", h, " " + y);
    Assoc(a + t + " " + h, " ", y);
  }

  lemma LastParts(a: Bytes, p: Bytes, q: Bytes, r: Bytes, z: Bytes)
    ensures a + (p + (" " + (q + (" " + (r + (" " + z)))))) == a + p + " " + q + " " + r + " " + z
  {
    MiddleParts(a, p, q, r + (" " + z));
    Assoc(a + p + " " + q + " ", r, " " + z);
    Assoc(a + p + " " + q + " " + r, " ", z);
  }

  // ----- the header -----

  /** A line without structured data: every token answers to its key, a lone `-`
      as nothing, and the text after the structured data is the message whole. */
  lemma HeaderKeys(pri: nat, version: nat, ts: Bytes, host: Bytes, app: Bytes, procid: Bytes, msgid: Bytes, text: Bytes)
    requires pri < 0x1_0000_0000 && Word(ts) && Word(host) && Word(app) && Word(procid) && Word(msgid)
    ensures var line := "<" + Digits(pri) + ">" + Digits(version) + " " + ts + " " + host + " " + app + " " + procid
                        + " " + msgid + " " + ("- " + text);
            ProjectField(line, "ts") == UnlessNil(ts)
            && ProjectField(line, "host") == UnlessNil(host)
            && ProjectField(line, "app") == UnlessNil(app)
            && ProjectField(line, "procid") == UnlessNil(procid)
            && ProjectField(line, "msgid") == UnlessNil(msgid)
            && ProjectField(line, "msg") == Some(text)
  {
    hide Print, Digits, HeaderReads, WellFormed, ProjectField, Answer;
    var m := Message(pri, version, ts, host, app, procid, msgid, [], Some(text));
    PlainMessage(m);
    PrintedText(m);
    NoElementsText(text);
    ProjectsAnswer(m, "ts");
    ProjectsAnswer(m, "host");
    ProjectsAnswer(m, "app");
    ProjectsAnswer(m, "procid");
    ProjectsAnswer(m, "msgid");
    ProjectsAnswer(m, "msg");
    PlainAnswers(m);
  }

  lemma NoElementsText(text: Bytes)
    ensures SdText([]) + MsgText(Some(text)) == "- " + text
  {
    assert "-" + (" " + text) == "- " + text;
  }

  lemma PlainMessage(m: Message)
    requires m.pri < 0x1_0000_0000 && Word(m.timestamp) && Word(m.host) && Word(m.app) && Word(m.procid)
    requires Word(m.msgid) && m.elements == []
    ensures WellFormed(m) && HeaderReads(m)
  {
  }

  lemma PlainAnswers(m: Message)
    requires m.elements == [] && m.msg.Some?
    ensures Answer(m, "ts") == UnlessNil(m.timestamp) && Answer(m, "host") == UnlessNil(m.host)
    ensures Answer(m, "app") == UnlessNil(m.app) && Answer(m, "procid") == UnlessNil(m.procid)
    ensures Answer(m, "msgid") == UnlessNil(m.msgid) && Answer(m, "msg") == Some(m.msg.value)
  {
    hide Lookup, DotAt, Leftover;
  }

  // ----- a parameter -----

  /** A value with one escaped character: the key `id.name` answers with the value
      as it was before escaping, for a quote, a backslash and a closing bracket,
      and no other character loses a backslash in the written text. */
  lemma ParameterKey(pri: nat, version: nat, ts: Bytes, host: Bytes, app: Bytes, procid: Bytes, msgid: Bytes,
      id: Bytes, name: Bytes, v: Bytes, c: char, w: Bytes, text: Bytes)
    requires pri < 0x1_0000_0000 && Word(ts) && Word(host) && Word(app) && Word(procid) && Word(msgid)
    requires Name(id) && Name(name) && '.' !in id
    requires (c == '"' || c == '\\' || c == ']') && forall x <- v + w :: x != '"' && x != '\\' && x != ']'
    ensures var sd := "[" + id + " " + name + "=\"" + v + "\\" + [c] + w + "\"]";
            var line := "<" + Digits(pri) + ">" + Digits(version) + " " + ts + " " + host + " " + app + " " + procid
                        + " " + msgid + " " + (sd + " " + text);
            ProjectField(line, id + "." + name) == Some(v + [c] + w)
            && ProjectField(line, "msg") == Some(text)
  {
    hide Print, Digits, HeaderReads, WellFormed, ProjectField, Answer, SdText, MsgText;
    var p := Param(name, v + [c] + w);
    var e := Element(id, [p]);
    var m := Message(pri, version, ts, host, app, procid, msgid, [e], Some(text));
    EscapedText(v, c, w);
    ElementMessage(m, e);
    PrintedText(m);
    ElementText(e, p, text, v, c, w);
    ProjectsAnswer(m, "msg");
    ProjectsAnswer(m, id + "." + name);
    ParameterAnswer(m, e, p);
  }

  lemma {:induction false} PlainEscape(v: Bytes, rest: Bytes)
    requires forall x <- v :: x != '"' && x != '\\' && x != ']'
    ensures Escape(v + rest) == v + Escape(rest)
  {
    if v == [] {
      assert v + rest == rest && [] + Escape(rest) == Escape(rest);
    } else {
      assert v[0] in v && forall x <- v[1..] :: x in v;
      assert (v + rest)[0] == v[0] && (v + rest)[1..] == v[1..] + rest;
      PlainEscape(v[1..], rest);
    }
  }

  lemma EscapedText(v: Bytes, c: char, w: Bytes)
    requires (c == '"' || c == '\\' || c == ']') && forall x <- v + w :: x != '"' && x != '\\' && x != ']'
    ensures Escape(v + [c] + w) == v + "\\" + [c] + w
  {
    forall x | x in v || x in w ensures x in v + w { }
    assert v + [c] + w == v + ([c] + w) && ([c] + w)[1..] == w;
    PlainEscape(v, [c] + w);
    PlainEscape(w, []);
    assert w + [] == w && Escape([]) == [];
    assert ['\\', c] + w == "\\" + [c] + w;
  }

  lemma ElementText(e: Element, p: Param, text: Bytes, v: Bytes, c: char, w: Bytes)
    requires e.params == [p] && Escape(p.value) == v + "\\" + [c] + w
    ensures SdText([e]) + MsgText(Some(text))
         == "[" + e.id + " " + p.name + "=\"" + v + "\\" + [c] + w + "\"]" + " " + text
  {
    hide Escape;
    assert ParamsText([p]) == " " + p.name + "=\"" + Escape(p.value) + "\"" by {
      assert [p][1..] == [];
    }
    OneElement(e);
    BracketText(e.id, p.name, v, c, w);
  }

  lemma OneElement(e: Element)
    ensures SdText([e]) == "[" + Body(e) + "]"
  {
    hide Body;
    assert [e][1..] == [] && ElementsText([]) == [];
    assert "[" + Body(e) + "]" + [] == "[" + Body(e) + "]";
  }

  lemma BracketText(id: Bytes, name: Bytes, v: Bytes, c: char, w: Bytes)
    ensures "[" + (id + (" " + name + "=\"" + (v + "\\" + [c] + w) + "\"")) + "]"
         == "[" + id + " " + name + "=\"" + v + "\\" + [c] + w + "\"]"
  {
    assert "\"" + "]" == "\"]";
  }

  lemma ElementMessage(m: Message, e: Element)
    requires m.pri < 0x1_0000_0000 && Word(m.timestamp) && Word(m.host) && Word(m.app) && Word(m.procid)
    requires Word(m.msgid) && m.elements == [e] && Name(e.id) && |e.params| == 1 && Name(e.params[0].name)
    ensures WellFormed(m) && HeaderReads(m)
  {
  }

  lemma ParameterAnswer(m: Message, e: Element, p: Param)
    requires HeaderReads(m) && m.elements == [e] && e.params == [p] && '.' !in e.id && m.msg.Some?
    ensures Answer(m, e.id + "." + p.name) == Some(p.value) && Answer(m, "msg") == Some(m.msg.value)
  {
    hide HeaderReads, FixedKey, DotAt, Lookup, HeaderValue, MsgRead;
    var key := e.id + "." + p.name;
    assert key == e.id + ("." + p.name);
    DotAtOf(e.id, "." + p.name);
    assert key[|e.id|] == '.' && key[..|e.id|] == e.id && key[|e.id| + 1..] == p.name;
    NoFixedKey(key, |e.id|);
    OneParameter(e, p);
    MessageRead(m);
    NotMsg(key);
  }

  lemma NotMsg(key: Bytes)
    requires !FixedKey(key)
    ensures key != "msg"
  {
  }

  lemma OneParameter(e: Element, p: Param)
    requires e.params == [p]
    ensures Lookup([e], e.id, Some(p.name)) == Some(p.value)
  {
  }

  lemma MessageRead(m: Message)
    requires HeaderReads(m) && |m.elements| == 1 && |m.elements[0].params| == 1 && m.msg.Some?
    ensures MsgRead(m) == m.msg.value
  {
  }

  // ----- exactly the lines that are taken -----

  datatype Parts = Parts(pri: Bytes, version: Bytes, ts: Bytes, host: Bytes, app: Bytes, procid: Bytes, msgid: Bytes)

  /** Two numbers and five words, and then nothing, or a space and some text. */
  predicate Laid(line: Bytes, p: Parts, end: Bytes) {
    p.pri != [] && AllDigits(p.pri) && Value(p.pri) < 0x1_0000_0000 && p.version != [] && AllDigits(p.version)
    && Word(p.ts) && Word(p.host) && Word(p.app) && Word(p.procid) && Word(p.msgid) && (end == [] || end[0] == ' ')
    && line == "<" + (p.pri + (">" + (p.version + (" " + (p.ts + (" " + (p.host + (" " + (p.app + (" "
               + (p.procid + (" " + (p.msgid + end)))))))))))))
  }

  /** What may follow: nothing, a lone `-`, one with a space behind it, or blocks
      whose brackets close. */
  predicate Follows(end: Bytes) {
    |end| <= 1 || end[1..] == "-" || "- " <= end[1..] || (end[1] == '[' && AfterBlocks(end[1..]).Some?)
  }

  lemma WordRead(w: Bytes, end: Bytes)
    requires Word(w) && (end == [] || end[0] == ' ')
    ensures NextToken(w + end) == Some((w, if end == [] then [] else end[1..]))
  {
    hide TokenLength;
    TokenLengthOf(w, end);
    var s := w + end;
    assert s[..|w|] == w;
    if end != [] {
      assert s[|w| + 1..] == end[1..];
    }
  }

  lemma SdFollows(end: Bytes)
    requires end == [] || end[0] == ' '
    ensures ReadSd(if end == [] then [] else end[1..]).Some? <==> Follows(end)
  {
    hide AfterBlocks;
    if |end| > 1 {
      var s := end[1..];
      assert s[0] == end[1];
      if s[0] == '-' && |s| > 1 && s[1] == ' ' {
        assert s == "- " + s[2..];
      }
    }
  }

  lemma NumbersRead(pri: Bytes, version: Bytes, rest: Bytes)
    requires pri != [] && AllDigits(pri) && Value(pri) < 0x1_0000_0000 && version != [] && AllDigits(version)
    ensures ReadPri("<" + (pri + (">" + (version + (" " + rest))))) == Some((MapSeverity(Value(pri) % 8), rest))
  {
    hide ReadPri, MapSeverity, Value, Rfc3339.DigitRun, AllDigits;
    var t := version + (" " + rest);
    var s := pri + (">" + t);
    Rfc3339.DigitRunStops(pri, ">" + t);
    Rfc3339.DigitRunStops(version, " " + rest);
    Joint(pri, '>', t);
    Joint(version, ' ', rest);
    assert s == pri + (['>'] + t) && t == version + ([' '] + rest);
    hide IsDigit;
    ReadPriSteps(s, t, |pri|, |version|);
  }

  lemma Joint(a: Bytes, c: char, b: Bytes)
    ensures var s := a + ([c] + b);
            |a| < |s| && s[..|a|] == a && s[|a|] == c && s[|a| + 1..] == b
  {
  }

  /** A line laid out so is taken, with its words, exactly when what follows them
      is structured data. */
  lemma LaidIsTaken(line: Bytes, p: Parts, end: Bytes)
    requires Laid(line, p, end)
    ensures ParseHeader(line).Some? <==> Follows(end)
    ensures Follows(end) ==>
              var h := ParseHeader(line).value;
              h.timestamp == p.ts && h.hostname == p.host && h.app == p.app && h.procid == p.procid
              && h.msgid == p.msgid && h.severity == [6, 6, 6, 5, 4, 3, 3, 2][Value(p.pri) % 8]
  {
    hide ReadPri, NextToken, ReadSd, Follows, AllDigits, Value;
    var s4 := p.msgid + end;
    var s3 := p.procid + (" " + s4);
    var s2 := p.app + (" " + s3);
    var s1 := p.host + (" " + s2);
    NumbersRead(p.pri, p.version, p.ts + (" " + s1));
    WordRead(p.ts, " " + s1);
    WordRead(p.host, " " + s2);
    WordRead(p.app, " " + s3);
    WordRead(p.procid, " " + s4);
    WordRead(p.msgid, end);
    AfterSpace(s1);
    AfterSpace(s2);
    AfterSpace(s3);
    AfterSpace(s4);
    SdFollows(end);
    LevelTable(Value(p.pri) % 8);
  }

  lemma AfterSpace(s: Bytes)
    ensures (" " + s)[1..] == s
  {
  }

  lemma LevelTable(k: nat)
    requires k < 8
    ensures MapSeverity(k) == [6, 6, 6, 5, 4, 3, 3, 2][k]
  {
  }

  lemma WordTaken(s: Bytes) returns (w: Bytes, end: Bytes)
    requires NextToken(s).Some?
    ensures Word(w) && s == w + end && (end == [] || end[0] == ' ')
    ensures NextToken(s) == Some((w, if end == [] then [] else end[1..]))
  {
    var n := TokenLength(s);
    w, end := s[..n], s[n..];
    assert forall c <- w :: c != ' ';
    if n < |s| {
      assert end[1..] == s[n + 1..];
    }
  }

  /** One that is not the last is followed by a space. */
  lemma WordThenMore(s: Bytes) returns (w: Bytes, rest: Bytes)
    requires NextToken(s).Some? && NextToken(NextToken(s).value.1).Some?
    ensures Word(w) && s == w + (" " + rest) && NextToken(s) == Some((w, rest))
  {
    hide NextToken, Word;
    var end: Bytes;
    w, end := WordTaken(s);
    NoWord();
    rest := end[1..];
    SpaceFirst(end);
  }

  lemma SpaceFirst(s: Bytes)
    requires s != [] && s[0] == ' '
    ensures s == " " + s[1..]
  {
  }

  lemma NoWord()
    ensures NextToken([]).None?
  {
  }

  lemma NumbersTaken(line: Bytes) returns (pri: Bytes, version: Bytes, rest: Bytes)
    requires ReadPri(line).Some?
    ensures pri != [] && AllDigits(pri) && Value(pri) < 0x1_0000_0000 && version != [] && AllDigits(version)
    ensures line == "<" + (pri + (">" + (version + (" " + rest)))) && ReadPri(line).value.1 == rest
  {
    hide ReadPri;
    var n, v := NumberRuns(line);
    hide *;
    var s := line[1..];
    var t := s[n + 1..];
    pri, version, rest := s[..n], t[..v], t[v + 1..];
    CutAt(t, v);
    CutAt(s, n);
    CutFirst(line);
  }

  lemma NumberRuns(line: Bytes) returns (n: nat, v: nat)
    requires ReadPri(line).Some?
    ensures |line| > 1 && line[0] == '<' && 0 < n < |line[1..]| && line[1..][n] == '>'
    ensures AllDigits(line[1..][..n]) && Value(line[1..][..n]) < 0x1_0000_0000
    ensures var t := line[1..][n + 1..];
            0 < v < |t| && t[v] == ' ' && AllDigits(t[..v]) && ReadPri(line).value.1 == t[v + 1..]
  {
    hide MapSeverity, Value, AllDigits;
    n := Rfc3339.DigitRun(line[1..]);
    v := Rfc3339.DigitRun(line[1..][n + 1..]);
  }

  lemma CutFirst(s: Bytes)
    requires s != [] && s[0] == '<'
    ensures s == "<" + s[1..]
  {
  }

  lemma CutAt(s: Bytes, n: nat)
    requires n < |s|
    ensures s == s[..n] + ([s[n]] + s[n + 1..])
  {
  }

  /** A line is taken if and only if it begins with `<`, a number below 2^32, `>`,
      a number, and five words, each behind one space, and what follows is nothing
      or, behind a space, structured data. */
  lemma HeaderTakesIff(line: Bytes)
    ensures ParseHeader(line).Some? <==> exists p, end :: Laid(line, p, end) && Follows(end)
  {
    hide ReadPri, NextToken, ReadSd, Follows, Laid;
    if ParseHeader(line).Some? {
      var p, end := TakenIsLaid(line);
      LaidIsTaken(line, p, end);
    }
    forall p, end | Laid(line, p, end) && Follows(end) ensures ParseHeader(line).Some? {
      LaidIsTaken(line, p, end);
    }
  }

  lemma TakenIsLaid(line: Bytes) returns (p: Parts, end: Bytes)
    requires ParseHeader(line).Some?
    ensures Laid(line, p, end)
  {
    hide ReadPri, NextToken, ReadSd, AllDigits, Value, Word;
    var pri, version, s0 := NumbersTaken(line);
    assert ReadFields(ReadPri(line).value.0, s0).Some?;
    var ts, s1 := WordThenMore(s0);
    var host, s2 := WordThenMore(s1);
    var app, s3 := WordThenMore(s2);
    var procid, s4 := WordThenMore(s3);
    var msgid, e := WordTaken(s4);
    p, end := Parts(pri, version, ts, host, app, procid, msgid), e;
  }
}
