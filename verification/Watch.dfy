/** Watch mode: events that match a rule become notices, repeats are collapsed,
    and nothing that matched goes unreported. */
module Watch {
  import opened Common
  import opened Collapse
  import P = Predicates

  /** Unit separator between the parts of a collapse key. */
  const SEP: char := '\U{001F}'

  // ----- `normalize_message` -----

  /** Digit runs become `#`; `inDigits` says that one is under way. */
  function Fold(s: string, inDigits: bool): string {
    if s == [] then [] else Sign(s[0], inDigits) + Fold(s[1..], IsDigit(s[0]))
  }

  function Sign(c: char, inDigits: bool): string {
    if IsDigit(c) then if inDigits then [] else ['#'] else [c]
  }

  /** The first characters of a text that there is room for. */
  function Seen(s: string, room: int): string {
    if room <= 0 then [] else if |s| <= room then s else s[..room]
  }

  function Normalize(msg: string): string { Fold(Seen(msg, 256), false) }

  lemma FoldStep(s: string, i: nat, inDigits: bool)
    requires i <= |s|
    ensures Fold(s[i..], inDigits)
         == if i == |s| then [] else Sign(s[i], inDigits) + Fold(s[i + 1..], IsDigit(s[i]))
  {
    if i < |s| {
      assert s[i..][0] == s[i] && s[i..][1..] == s[i + 1..];
    }
  }

  lemma Regroup(a: string, b: string, c: string)
    ensures a + (b + c) == a + b + c
  {
  }

  lemma FoldsSeen(msg: string, s: string)
    requires s == msg[..if |msg| <= 256 then |msg| else 256]
    ensures Normalize(msg) == "" + Fold(s[0..], false)
  {
    hide Fold;
    assert s == Seen(msg, 256) && s[0..] == s && "" + Fold(s, false) == Fold(s, false);
  }

  method NormalizeMessage(msg: string) returns (out: string)
    ensures out == Normalize(msg)
  {
    hide Fold, Normalize;
    var n := if |msg| <= 256 then |msg| else 256;
    ghost var s := msg[..n];
    FoldsSeen(msg, s);
    out := "";
    var inDigits := false;
    for i := 0 to n
      invariant Normalize(msg) == out + Fold(s[i..], inDigits)
    {
      FoldStep(s, i, inDigits);
      var c := msg[i];
      Regroup(out, Sign(c, inDigits), Fold(s[i + 1..], IsDigit(c)));
      if IsDigit(c) {
        if !inDigits {
          out := out + ['#'];
        }
        inDigits := true;
      } else {
        inDigits := false;
        out := out + [c];
      }
    }
    FoldStep(s, n, inDigits);
  }

  predicate AllDigits(d: string) { forall c | c in d :: IsDigit(c) }

  lemma {:induction false} FoldDigits(d: string, rest: string, inDigits: bool)
    requires d != [] && AllDigits(d)
    ensures Fold(d + rest, inDigits) == (if inDigits then [] else ['#']) + Fold(rest, true)
  {
    assert d[0] in d;
    assert (d + rest)[1..] == d[1..] + rest;
    if |d| == 1 {
      assert d[1..] + rest == rest;
    } else {
      FoldDigits(d[1..], rest, true);
    }
  }

  /** Whether a digit run is under way behind a text. */
  predicate EndsInDigits(a: string, inDigits: bool) { if a == [] then inDigits else IsDigit(a[|a| - 1]) }

  lemma FoldCons(c: char, rest: string, inDigits: bool)
    ensures Fold([c] + rest, inDigits) == Sign(c, inDigits) + Fold(rest, IsDigit(c))
  {
    assert ([c] + rest)[1..] == rest;
  }

  lemma EndsCons(c: char, rest: string, inDigits: bool)
    ensures EndsInDigits([c] + rest, inDigits) == EndsInDigits(rest, IsDigit(c))
  {
  }

  lemma FoldNothing(x: string, inDigits: bool)
    ensures Fold([] + x, inDigits) == Fold([], inDigits) + Fold(x, EndsInDigits([], inDigits))
  {
    assert [] + x == x;
  }

  lemma {:induction false} FoldConcat(a: string, x: string, inDigits: bool)
    ensures Fold(a + x, inDigits) == Fold(a, inDigits) + Fold(x, EndsInDigits(a, inDigits))
  {
    hide *;
    if a == [] {
      FoldNothing(x, inDigits);
    } else {
      var c, rest := a[0], a[1..];
      assert a == [c] + rest;
      assert a + x == [c] + (rest + x);
      FoldCons(c, rest, inDigits);
      FoldCons(c, rest + x, inDigits);
      EndsCons(c, rest, inDigits);
      FoldConcat(rest, x, IsDigit(c));
      Regroup(Sign(c, inDigits), Fold(rest, IsDigit(c)), Fold(x, EndsInDigits(a, inDigits)));
    }
  }

  lemma SeenConcat(x: string, y: string, room: int)
    ensures Seen(x + y, room) == Seen(x, room) + Seen(y, room - |x|)
  {
  }

  lemma SeenDigits(d: string, room: nat)
    requires d != [] && AllDigits(d) && room > 0
    ensures Seen(d, room) != [] && AllDigits(Seen(d, room))
  {
  }

  /** What is seen of a text that there is room for and a number behind it. */
  lemma SeenNumber(a: string, d: string, b: string)
    requires |a| < 256
    ensures Seen(a + d + b, 256) == a + (Seen(d, 256 - |a|) + Seen(b, 256 - |a| - |d|))
  {
    assert a + d + b == a + (d + b);
    SeenConcat(a, d + b, 256);
    SeenConcat(d, b, 256 - |a|);
  }

  /** The number counts as one sign. */
  lemma FoldNumber(a: string, d: string, b: string)
    requires d != [] && AllDigits(d) && |a| < 256
    ensures Normalize(a + d + b)
         == Fold(a, false) + ((if EndsInDigits(a, false) then [] else ['#']) + Fold(Seen(b, 256 - |a| - |d|), true))
  {
    hide Fold, Seen, AllDigits, EndsInDigits;
    var room := 256 - |a|;
    SeenNumber(a, d, b);
    SeenDigits(d, room);
    FoldConcat(a, Seen(d, room) + Seen(b, room - |d|), false);
    FoldDigits(Seen(d, room), Seen(b, room - |d|), EndsInDigits(a, false));
  }

  /** Two messages that differ only in the digits of a number share a key exactly
      when the number is cut off, or what is seen behind it is folded alike. */
  lemma NumbersMatterIff(a: string, d: string, e: string, b: string)
    requires d != [] && e != [] && AllDigits(d) && AllDigits(e)
    ensures Normalize(a + d + b) == Normalize(a + e + b)
       <==> |a| >= 256 || Fold(Seen(b, 256 - |a| - |d|), true) == Fold(Seen(b, 256 - |a| - |e|), true)
  {
    hide Fold;
    if |a| >= 256 {
      assert Seen(a + d + b, 256) == a[..256] == Seen(a + e + b, 256);
    } else {
      FoldNumber(a, d, b);
      FoldNumber(a, e, b);
      var n := Fold(a, false);
      var sign := if EndsInDigits(a, false) then [] else ['#'];
      SameBehind(n, sign, Fold(Seen(b, 256 - |a| - |d|), true), Fold(Seen(b, 256 - |a| - |e|), true));
    }
  }

  lemma SameBehind(n: string, m: string, x: string, y: string)
    ensures n + (m + x) == n + (m + y) <==> x == y
  {
    if n + (m + x) == n + (m + y) {
      assert (n + (m + x))[|n| + |m|..] == x && (n + (m + y))[|n| + |m|..] == y;
    }
  }

  predicate DigitFree(s: string) { forall c | c in s :: !IsDigit(c) }

  lemma {:induction false} FoldDigitFree(s: string, inDigits: bool)
    requires DigitFree(s)
    ensures Fold(s, inDigits) == s
  {
    if s != [] {
      assert s[0] in s;
      FoldDigitFree(s[1..], false);
    }
  }

  /** Text without digits is kept as far as it is seen, and a number in it becomes
      one sign. */
  lemma NormalizedText(a: string, d: string, b: string)
    requires DigitFree(a) && DigitFree(b) && d != [] && AllDigits(d)
    ensures Normalize(a) == Seen(a, 256)
    ensures |a + d + b| <= 256 ==> Normalize(a + d + b) == a + "#" + b
  {
    hide Fold;
    assert DigitFree(Seen(a, 256));
    FoldDigitFree(Seen(a, 256), false);
    if |a + d + b| <= 256 {
      FoldNumber(a, d, b);
      FoldDigitFree(a, false);
      FoldDigitFree(b, true);
      assert a != [] ==> a[|a| - 1] in a;
    }
  }

  /** So they share a key when the numbers are equally long or both messages are
      read whole. */
  lemma NumbersDoNotMatter(a: string, d: string, e: string, b: string)
    requires d != [] && e != [] && AllDigits(d) && AllDigits(e)
    requires |d| == |e| || (|a + d + b| <= 256 && |a + e + b| <= 256)
    ensures Normalize(a + d + b) == Normalize(a + e + b)
  {
    NumbersMatterIff(a, d, e, b);
  }

  /** A longer number pushes the text behind it past the 256th character. */
  lemma LongNumberWitness()
    ensures var a := seq(250, _ => 'x');
            Normalize(a + "1" + "abc") != Normalize(a + "1234567" + "abc")
  {
    var a := seq(250, _ => 'x');
    NumbersMatterIff(a, "1", "1234567", "abc");
    assert Fold("abc", true)[0] == 'a';
  }

  // ----- rules, events, notices -----

  datatype Rule = Rule(name: string, query: string, alert: bool, pred: P.Predicate)

  datatype Event = Event(source: nat, format: P.LogFormat, ts: int, severity: P.Severity, line: Bytes)

  datatype Matched = Matched(rule: string, source: string, ts: int, severity: P.Severity, msg: string, line: Bytes,
      alert: bool)

  datatype Notice =
    | Match(m: Matched)
    | Repeat(first: Matched, last: Matched, count: nat, window: nat)
  {
    /** The record a notice is about; for repeats the latest one. */
    function Subject(): Matched { if Match? then m else last }
  }

  /** What the notice stands for: one event, or all those it counts. */
  function Weight(n: Notice): nat { if n.Match? then 1 else n.count }

  function EventLine(ev: Event): P.Line { P.Line(ev.format, ev.line, None, None) }

  function EventRecord(ev: Event): P.RawRecord { P.RawRecord(ev.source, 0, ev.ts, ev.severity) }

  predicate RuleMatches(r: Rule, lib: P.Library, ev: Event) {
    P.Holds(r.pred, lib, EventRecord(ev), EventLine(ev))
  }

  /** The first rule that matches wins. */
  function FirstRule(rules: seq<Rule>, lib: P.Library, ev: Event): Option<Rule> {
    if rules == [] then None
    else if RuleMatches(rules[0], lib, ev) then Some(rules[0])
    else FirstRule(rules[1..], lib, ev)
  }

  /** `Rule::matches`: through a fresh field cache. */
  method Matches(r: Rule, lib: P.Library, ev: Event) returns (b: bool)
    ensures b == RuleMatches(r, lib, ev)
  {
    var cache := new P.FieldCache(EventLine(ev));
    b := P.Matches(r.pred, lib, EventRecord(ev), cache);
  }

  method FindRule(rules: seq<Rule>, lib: P.Library, ev: Event) returns (r: Option<Rule>)
    ensures r == FirstRule(rules, lib, ev)
  {
    hide RuleMatches;
    assert rules[0..] == rules;
    for i := 0 to |rules|
      invariant FirstRule(rules, lib, ev) == FirstRule(rules[i..], lib, ev)
    {
      var b := Matches(rules[i], lib, ev);
      if b { return Some(rules[i]); }
      assert rules[i..][1..] == rules[i + 1..];
    }
    r := None;
  }

  /** The first of the rules, in their order, that matches. */
  lemma {:induction false} FirstRuleIff(rules: seq<Rule>, lib: P.Library, ev: Event)
    ensures match FirstRule(rules, lib, ev)
            case Some(r) =>
              exists i :: 0 <= i < |rules| && rules[i] == r && RuleMatches(r, lib, ev)
                          && forall j | 0 <= j < i :: !RuleMatches(rules[j], lib, ev)
            case None => forall i | 0 <= i < |rules| :: !RuleMatches(rules[i], lib, ev)
  {
    hide RuleMatches;
    if rules != [] && !RuleMatches(rules[0], lib, ev) {
      FirstRuleIff(rules[1..], lib, ev);
      assert forall j | 1 <= j < |rules| :: rules[j] == rules[1..][j - 1];
      if FirstRule(rules[1..], lib, ev).Some? {
        var i :| 0 <= i < |rules[1..]| && rules[1..][i] == FirstRule(rules[1..], lib, ev).value
                 && forall j | 0 <= j < i :: !RuleMatches(rules[1..][j], lib, ev);
        assert rules[i + 1] == rules[1..][i];
      }
    }
  }

  /** What a rule reads of an event: its time, its severity, its bytes, and its
      fields by the format of the source. */
  lemma RuleReads(r: Rule, lib: P.Library, ev: Event, levels: seq<P.Severity>, m: P.Syslog.Message)
    requires r.pred.SeverityIn? ==> forall s: P.Severity :: P.InMask(r.pred.mask, s) <==> s in levels
    ensures r.pred.TimeRange? ==>
              (RuleMatches(r, lib, ev)
               <==> ev.ts != TS_UNTIMED
                    && match r.pred.cmp
                       case Greater => ev.ts > r.pred.bound
                       case GreaterEq => ev.ts >= r.pred.bound
                       case Less => ev.ts < r.pred.bound
                       case LessEq => ev.ts <= r.pred.bound)
    ensures r.pred.SeverityIn? ==> (RuleMatches(r, lib, ev) <==> ev.severity in levels)
    ensures r.pred.RegexBytes? ==> (RuleMatches(r, lib, ev) <==> lib.isMatchBytes(r.pred.pattern, ev.line))
    ensures r.pred.FieldEquals? && ev.format == P.Syslog && P.Syslog.WellFormed(m) && ev.line == P.Syslog.Print(m) ==>
              (RuleMatches(r, lib, ev) <==> P.Syslog.Answer(m, r.pred.field) == Some(r.pred.value))
    ensures r.pred.FieldEquals? && ev.format in {P.Ndjson, P.Logfmt, P.Edn, P.Python, P.Access, P.Logback,
                                                 P.Journalctl, P.Plain} ==>
              (RuleMatches(r, lib, ev) <==> lib.project(ev.format, ev.line, r.pred.field) == Some(r.pred.value))
  {
    hide P.Syslog.Print, P.Syslog.WellFormed, P.Syslog.Answer;
    if r.pred.SeverityIn? {
      assert P.InMask(r.pred.mask, ev.severity) <==> ev.severity in levels;
    }
    if r.pred.FieldEquals? && ev.format == P.Syslog && P.Syslog.WellFormed(m) && ev.line == P.Syslog.Print(m) {
      P.SyslogLine(lib, EventLine(ev), m, r.pred.field);
    }
  }

  // ----- collapse keys -----

  function KeyOf(rule: string, source: string, msg: string): string {
    rule + [SEP] + source + [SEP] + Normalize(msg)
  }

  /** No rule name, followed by the separator, starts the name of another rule. */
  predicate NamesApart(rules: seq<Rule>) {
    forall a, b | a in rules && b in rules :: a.name == b.name || !(a.name + [SEP] <= b.name)
  }

  /** The rule a key was made for: the first whose name and separator start it. */
  function Owner(rules: seq<Rule>, key: string): string {
    if rules == [] then []
    else if rules[0].name + [SEP] <= key then rules[0].name
    else Owner(rules[1..], key)
  }

  /** Names that start the same key are equal, or one starts the other. */
  lemma NamesOfKey(a: string, b: string, key: string)
    requires a + [SEP] <= key && b + [SEP] <= key
    ensures a == b || a + [SEP] <= b || b + [SEP] <= a
  {
    assert a == key[..|a|] && b == key[..|b|] && key[|a|] == SEP && key[|b|] == SEP;
    if |a| < |b| {
      assert b[..|a|] == a && b[|a|] == SEP;
    } else if |b| < |a| {
      assert a[..|b|] == b && a[|b|] == SEP;
    }
  }

  lemma KeyStarts(rule: string, source: string, msg: string)
    ensures rule + [SEP] <= KeyOf(rule, source, msg)
  {
    assert KeyOf(rule, source, msg) == rule + [SEP] + (source + [SEP] + Normalize(msg));
  }

  /** Two rule names are told apart by all their keys exactly when neither,
      followed by the separator, starts the other. */
  lemma KeysTellRulesIff(a: string, b: string)
    requires a != b
    ensures (forall s, t, x, y :: KeyOf(a, s, x) != KeyOf(b, t, y)) <==> !(a + [SEP] <= b) && !(b + [SEP] <= a)
  {
    if a + [SEP] <= b {
      SharedKey(a, b);
    } else if b + [SEP] <= a {
      SharedKey(b, a);
    } else {
      forall s, t, x, y
        ensures KeyOf(a, s, x) != KeyOf(b, t, y)
      {
        KeyStarts(a, s, x);
        KeyStarts(b, t, y);
        if KeyOf(a, s, x) == KeyOf(b, t, y) {
          NamesOfKey(a, b, KeyOf(a, s, x));
        }
      }
    }
  }

  lemma SharedKey(a: string, b: string)
    requires a + [SEP] <= b
    ensures exists s, t, x, y :: KeyOf(a, s, x) == KeyOf(b, t, y)
    ensures exists s, t, x, y :: KeyOf(b, s, x) == KeyOf(a, t, y)
  {
    var r := b[|a| + 1..];
    assert b == a + [SEP] + r;
    SameKey(a, r);
  }

  lemma SameKey(a: string, r: string)
    ensures KeyOf(a, r + [SEP], "") == KeyOf(a + [SEP] + r, "", "")
  {
    assert a + [SEP] + (r + [SEP]) + [SEP] == a + [SEP] + r + [SEP] + "" + [SEP];
  }

  /** With names apart, a rule can be read off its keys. */
  lemma {:induction false} OwnerOfKey(rules: seq<Rule>, r: Rule, source: string, msg: string)
    requires r in rules && NamesApart(rules)
    ensures Owner(rules, KeyOf(r.name, source, msg)) == r.name
  {
    var key := KeyOf(r.name, source, msg);
    KeyStarts(r.name, source, msg);
    if rules[0].name + [SEP] <= key {
      assert rules[0] in rules;
      NamesOfKey(rules[0].name, r.name, key);
    } else {
      OwnerOfKey(rules[1..], r, source, msg);
    }
  }

  // ----- what a key tells -----

  lemma FirstSeparator(a: string, x: string)
    requires SEP !in a
    ensures var k := a + [SEP] + x;
            k[|a|] == SEP && k[..|a|] == a && k[|a| + 1..] == x && forall i | 0 <= i < |a| :: k[i] != SEP
  {
    var k := a + [SEP] + x;
    forall i | 0 <= i < |a| ensures k[i] != SEP {
      assert k[i] == a[i] && a[i] in a;
    }
  }

  /** Text without the separator is told off from what follows the first one. */
  lemma SplitAtSeparator(a: string, x: string, b: string, y: string)
    requires SEP !in a && SEP !in b && a + [SEP] + x == b + [SEP] + y
    ensures a == b && x == y
  {
    FirstSeparator(a, x);
    FirstSeparator(b, y);
  }

  /** Keys of one rule are equal exactly when the source names and the normalized
      messages are, for source names without the separator. */
  lemma KeysTellMessages(rule: string, s: string, x: string, t: string, y: string)
    requires SEP !in s && SEP !in t
    ensures KeyOf(rule, s, x) == KeyOf(rule, t, y) <==> s == t && Normalize(x) == Normalize(y)
  {
    hide Normalize;
    var u, v := s + [SEP] + Normalize(x), t + [SEP] + Normalize(y);
    assert KeyOf(rule, s, x) == rule + [SEP] + u && KeyOf(rule, t, y) == rule + [SEP] + v;
    SameTail(rule + [SEP], u, v);
    if u == v {
      SplitAtSeparator(s, Normalize(x), t, Normalize(y));
    }
  }

  lemma SameTail(a: string, x: string, y: string)
    ensures a + x == a + y <==> x == y
  {
    assert (a + x)[|a|..] == x && (a + y)[|a|..] == y;
  }

  /** Records that are collapsed into one: of one rule and one source, with
      messages that normalize alike. */
  predicate Alike(a: Matched, b: Matched) {
    a.rule == b.rule && a.source == b.source && Normalize(a.msg) == Normalize(b.msg)
  }

  function KeyOfRecord(m: Matched): string { KeyOf(m.rule, m.source, m.msg) }

  /** A record of one of the rules and one of the sources. */
  predicate Known(rules: seq<Rule>, names: seq<string>, m: Matched) {
    (exists r :: r in rules && r.name == m.rule) && (m.source == "" || m.source in names)
  }

  /** Neither the rules nor the sources can be confused by their names. */
  predicate TellApart(rules: seq<Rule>, names: seq<string>) {
    NamesApart(rules) && forall n <- names :: SEP !in n
  }

  lemma KeysTellRecords(rules: seq<Rule>, names: seq<string>, a: Matched, b: Matched)
    requires TellApart(rules, names) && Known(rules, names, a) && Known(rules, names, b)
    ensures KeyOfRecord(a) == KeyOfRecord(b) <==> Alike(a, b)
  {
    hide Normalize, KeyOf;
    if KeyOfRecord(a) == KeyOfRecord(b) {
      KeyStarts(a.rule, a.source, a.msg);
      KeyStarts(b.rule, b.source, b.msg);
      NamesOfKey(a.rule, b.rule, KeyOfRecord(a));
    }
    if a.rule == b.rule {
      KeysTellMessages(a.rule, a.source, a.msg, b.source, b.msg);
    } else {
      assert !Alike(a, b);
    }
  }

  /** Every entry is held under the key of its first record. */
  predicate Keyed(rules: seq<Rule>, names: seq<string>, entries: Table<Matched>) {
    forall k | k in entries :: k == KeyOfRecord(entries[k].sample) && Known(rules, names, entries[k].sample)
  }

  // ----- accounting, in all or for one rule -----

  /** Which events are counted: all, or those of one rule. */
  type Scope = Option<string>

  predicate InScope(scope: Scope, rule: string) { scope.None? || scope.value == rule }

  function InScopeCount(scope: Scope, rule: string): nat { if InScope(scope, rule) then 1 else 0 }

  function KeyPick(rules: seq<Rule>, scope: Scope): string -> bool { key => InScope(scope, Owner(rules, key)) }

  function Weighed(out: seq<Notice>, scope: Scope): nat {
    if out == [] then 0
    else (if InScope(scope, out[0].Subject().rule) then Weight(out[0]) else 0) + Weighed(out[1..], scope)
  }

  lemma {:induction false} WeighedConcat(a: seq<Notice>, b: seq<Notice>, scope: Scope)
    ensures Weighed(a + b, scope) == Weighed(a, scope) + Weighed(b, scope)
  {
    if a == [] {
      assert a + b == b;
    } else {
      assert (a + b)[1..] == a[1..] + b;
      WeighedConcat(a[1..], b, scope);
    }
  }

  /** Every entry and every pending summary is filed under its own rule. */
  predicate Filed(rules: seq<Rule>, entries: Table<Matched>) {
    forall k | k in entries ::
      Owner(rules, k) == entries[k].sample.rule
      && (entries[k].last.Some? ==> Owner(rules, k) == entries[k].last.value.rule)
  }

  predicate SummariesFiled(rules: seq<Rule>, s: seq<Summary<Matched>>)
  {
    forall x | x in s :: Owner(rules, x.key) == x.last.rule
  }

  lemma ReportsFiled(rules: seq<Rule>, added: seq<Summary<Matched>>, gone: Table<Matched>)
    requires Reports(added, gone) && Filed(rules, gone)
    ensures SummariesFiled(rules, added)
  {
  }

  function RepeatOf(s: Summary<Matched>, window: nat): Notice { Repeat(s.sample, s.last, s.count, window) }

  function RepeatsOf(s: seq<Summary<Matched>>, window: nat): seq<Notice> {
    if s == [] then [] else [RepeatOf(s[0], window)] + RepeatsOf(s[1..], window)
  }

  /** Repeat notices weigh what the summaries report: always in all, and per
      rule when every summary is filed under its rule. */
  lemma {:induction false} RepeatsWeigh(rules: seq<Rule>, s: seq<Summary<Matched>>, window: nat, scope: Scope)
    requires scope.None? || SummariesFiled(rules, s)
    ensures Weighed(RepeatsOf(s, window), scope) == Reported(s, KeyPick(rules, scope))
  {
    if s != [] {
      assert s[0] in s;
      assert SummariesFiled(rules, s) ==> SummariesFiled(rules, s[1..]);
      RepeatsWeigh(rules, s[1..], window, scope);
      assert RepeatsOf(s, window)[1..] == RepeatsOf(s[1..], window);
    }
  }

  // ----- the watcher -----

  /** What a collapser still owes: repeats held back and summaries not flushed. */
  ghost function Owed(rules: seq<Rule>, entries: Table<Matched>, closed: seq<Summary<Matched>>, scope: Scope): nat {
    Held(entries, KeyPick(rules, scope)) + Reported(closed, KeyPick(rules, scope))
  }

  /** Summaries handed out account for what the table no longer holds. */
  lemma HandedOut(rules: seq<Rule>, before: seq<Summary<Matched>>, out: seq<Summary<Matched>>,
      gone: Table<Matched>, scope: Scope)
    requires before <= out && Reports(out[|before|..], gone)
    ensures Reported(out, KeyPick(rules, scope))
         == Reported(before, KeyPick(rules, scope)) + Held(gone, KeyPick(rules, scope))
  {
    assert out == before + out[|before|..];
    ReportedConcat(before, out[|before|..], KeyPick(rules, scope));
    ReportsAll(out[|before|..], gone, KeyPick(rules, scope));
  }

  lemma HandedOutFiled(rules: seq<Rule>, before: seq<Summary<Matched>>, out: seq<Summary<Matched>>,
      gone: Table<Matched>)
    requires before <= out && Reports(out[|before|..], gone) && SummariesFiled(rules, before) && Filed(rules, gone)
    ensures SummariesFiled(rules, out)
  {
    ReportsFiled(rules, out[|before|..], gone);
    assert out == before + out[|before|..];
  }

  /** An offer of one matching event: what is owed grows by one exactly when
      the event was held back. */
  lemma OfferOwed(rules: seq<Rule>, m: Table<Matched>, before: seq<Summary<Matched>>, window: int, key: string,
      payload: Matched, now: int,
                  after: Table<Matched>, closed: seq<Summary<Matched>>, scope: Scope)
    requires after == AfterOffer(m, window, key, payload, now) && before <= closed
    requires Repeats(m, window, key, now) || window == 0 ==> closed == before
    requires !Repeats(m, window, key, now) && window != 0 ==> Reports(closed[|before|..], ClosedBy(m, window, key, now))
    ensures Owed(rules, after, closed, scope)
         == Owed(rules, m, before, scope)
            + if Repeats(m, window, key, now) && InScope(scope, Owner(rules, key)) then 1 else 0
  {
    hide Held, Reported, ClosedBy, Reports, Expired;
    OfferConserves(m, window, key, payload, now, KeyPick(rules, scope));
    if !Repeats(m, window, key, now) && window != 0 {
      HandedOut(rules, before, closed, ClosedBy(m, window, key, now), scope);
    }
  }

  /** Filing survives an offer under a key of the event's own rule. */
  lemma OfferFiled(rules: seq<Rule>, m: Table<Matched>, window: int, key: string, payload: Matched, now: int)
    requires Filed(rules, m) && Owner(rules, key) == payload.rule
    ensures Filed(rules, AfterOffer(m, window, key, payload, now)) && Filed(rules, ClosedBy(m, window, key, now))
  {
    hide Filed, Owner, RoomFor, ClosedBy, Expired;
    PartsOfTable(m, window, key, now);
    FiledWithin(rules, m, ClosedBy(m, window, key, now));
    FiledWithin(rules, m, RoomFor(m, window, key, now));
    FiledUpdate(rules, RoomFor(m, window, key, now), key, Entry(now, 0, payload, None));
    if key in m {
      FiledUpdate(rules, m, key, m[key].(count := m[key].count + 1, last := Some(payload)));
    }
  }

  predicate Within(n: Table<Matched>, m: Table<Matched>) { forall k | k in n :: k in m && n[k] == m[k] }

  lemma PartsOfTable(m: Table<Matched>, window: int, key: string, now: int)
    ensures Within(ClosedBy(m, window, key, now), m) && Within(RoomFor(m, window, key, now), m)
  {
    hide Expired;
  }

  lemma KeyedWithin(rules: seq<Rule>, names: seq<string>, m: Table<Matched>, n: Table<Matched>)
    requires Keyed(rules, names, m) && Within(n, m)
    ensures Keyed(rules, names, n)
  {
    hide KeyOfRecord, Known;
  }

  lemma KeyedUpdate(rules: seq<Rule>, names: seq<string>, m: Table<Matched>, key: string, e: Entry<Matched>)
    requires Keyed(rules, names, m)
    requires (key == KeyOfRecord(e.sample) && Known(rules, names, e.sample)) || (key in m && e.sample == m[key].sample)
    ensures Keyed(rules, names, m[key := e])
  {
    hide KeyOfRecord, Known;
  }

  /** Keys survive an offer of a record under its own key. */
  lemma OfferKeyed(rules: seq<Rule>, names: seq<string>, m: Table<Matched>, window: int, key: string,
      payload: Matched, now: int)
    requires Keyed(rules, names, m) && key == KeyOfRecord(payload) && Known(rules, names, payload)
    ensures Keyed(rules, names, AfterOffer(m, window, key, payload, now))
  {
    hide *;
    OfferCases(m, window, key, payload, now);
    if Repeats(m, window, key, now) {
      KeyedUpdate(rules, names, m, key, m[key].(count := m[key].count + 1, last := Some(payload)));
    } else {
      PartsOfTable(m, window, key, now);
      KeyedWithin(rules, names, m, RoomFor(m, window, key, now));
      KeyedUpdate(rules, names, RoomFor(m, window, key, now), key, Entry(now, 0, payload, None));
    }
  }

  lemma OfferCases(m: Table<Matched>, window: int, key: string, payload: Matched, now: int)
    ensures Repeats(m, window, key, now) ==> key in m
    ensures AfterOffer(m, window, key, payload, now)
         == if window == 0 then m
            else if Repeats(m, window, key, now) then
              m[key := m[key].(count := m[key].count + 1, last := Some(payload))]
            else
              var room := RoomFor(m, window, key, now);
              if |room| >= MAX_KEYS then room else room[key := Entry(now, 0, payload, None)]
  {
    hide RoomFor, Expired;
  }

  lemma KeptIsWithin(m: Table<Matched>, window: int, now: int)
    ensures Within(Kept(m, window, now), m)
  {
    hide Expired;
  }

  lemma FiledWithin(rules: seq<Rule>, m: Table<Matched>, n: Table<Matched>)
    requires Filed(rules, m) && Within(n, m)
    ensures Filed(rules, n)
  {
  }

  lemma FiledUpdate(rules: seq<Rule>, m: Table<Matched>, key: string, e: Entry<Matched>)
    requires Filed(rules, m) && (e.last.Some? ==> Owner(rules, key) == e.last.value.rule)
    requires Owner(rules, key) == e.sample.rule || (key in m && e.sample == m[key].sample)
    ensures Filed(rules, m[key := e])
  {
  }

  method RepeatNotices(s: seq<Summary<Matched>>, window: nat) returns (out: seq<Notice>)
    ensures out == RepeatsOf(s, window)
  {
    out := [];
    assert s[0..] == s;
    for i := 0 to |s|
      invariant RepeatsOf(s, window) == out + RepeatsOf(s[i..], window)
    {
      assert s[i..][1..] == s[i + 1..];
      out := out + [RepeatOf(s[i], window)];
    }
  }

  // ----- what the watcher does, as relations -----

  /** What the collapser holds. */
  datatype Book = Book(entries: Table<Matched>, closed: seq<Summary<Matched>>)

  /** The pending summaries and those of the entries that go. */
  ghost predicate HandsOut(before: seq<Summary<Matched>>, gone: Table<Matched>, out: seq<Summary<Matched>>) {
    before <= out && Reports(out[|before|..], gone)
  }

  ghost predicate Notified(b: Book, gone: Table<Matched>, window: nat, out: seq<Notice>) {
    exists s :: HandsOut(b.closed, gone, s) && out == RepeatsOf(s, window)
  }

  /** One matching record offered at a time. */
  ghost predicate Answers(b: Book, w: int, key: string, m: Matched, now: int, b': Book, out: seq<Notice>) {
    out == (if Repeats(b.entries, w, key, now) then [] else [Match(m)])
    && b'.entries == AfterOffer(b.entries, w, key, m, now)
    && if Repeats(b.entries, w, key, now) || w == 0 then b'.closed == b.closed
       else HandsOut(b.closed, ClosedBy(b.entries, w, key, now), b'.closed)
  }

  datatype Setup = Setup(rules: seq<Rule>, names: seq<string>, window: nat, replay: bool, lib: P.Library,
                         message: (P.LogFormat, Bytes) -> string)
  {
    function W(): int { Min(window, I64_MAX) }

    function NowOf(ev: Event, wall: int): int { if replay && ev.ts != TS_UNTIMED then ev.ts else wall }

    function SourceOf(ev: Event): string { if ev.source < |names| then names[ev.source] else "" }

    function MatchedOf(rule: Rule, ev: Event): Matched {
      Matched(rule.name, SourceOf(ev), ev.ts, ev.severity, message(ev.format, ev.line), ev.line, rule.alert)
    }

    function KeyFor(rule: Rule, ev: Event): string {
      KeyOf(rule.name, SourceOf(ev), message(ev.format, ev.line))
    }

    /** An event: a tick, and the record of the first matching rule. */
    ghost predicate TakesEvent(b: Book, ev: Event, wall: int, b': Book, out: seq<Notice>) {
      var now := NowOf(ev, wall);
      var kept := Book(Kept(b.entries, W(), now), []);
      exists ticked, more ::
        Notified(b, Gone(b.entries, W(), now), window, ticked) && out == ticked + more
        && match FirstRule(rules, lib, ev)
           case None => b' == kept && more == []
           case Some(rule) => Answers(kept, W(), KeyFor(rule, ev), MatchedOf(rule, ev), now, b', more)
    }

    ghost predicate TakesMessage(b: Book, m: Message, b': Book, out: seq<Notice>) {
      match m
      case Arrived(ev, wall) => TakesEvent(b, ev, wall, b', out)
      case Timeout(wall) =>
        if replay then b' == b && out == []
        else b' == Book(Kept(b.entries, W(), wall), []) && Notified(b, Gone(b.entries, W(), wall), window, out)
      case Ended(_) => b' == b && out == []
    }

    /** The first turns of a run: what is held before each message and after the
        last one, and what comes out at each. */
    ghost predicate Starts(script: seq<Message>, books: seq<Book>, notices: seq<seq<Notice>>) {
      && |books| == |notices| + 1 && |notices| <= |script| && books[0] == Book(map[], [])
      && forall i | 0 <= i < |notices| :: TakesMessage(books[i], script[i], books[i + 1], notices[i])
    }

    /** A whole run, closed by what is still held. */
    ghost predicate Runs(script: seq<Message>, books: seq<Book>, notices: seq<seq<Notice>>) {
      && |notices| == |script| + 1 && Starts(script, books, notices[..|script|])
      && Notified(books[|script|], books[|script|].entries, window, notices[|script|])
    }

    lemma OneMoreTurn(script: seq<Message>, books: seq<Book>, notices: seq<seq<Notice>>, b: Book, more: seq<Notice>)
      requires Starts(script, books, notices) && |notices| < |script|
      requires TakesMessage(books[|notices|], script[|notices|], b, more)
      ensures Starts(script, books + [b], notices + [more])
      ensures Flatten(notices + [more]) == Flatten(notices) + more
    {
      hide Setup.TakesMessage, Flatten;
      FlattenSnoc(notices, more);
      var books', notices' := books + [b], notices + [more];
      forall i | 0 <= i < |notices'| ensures TakesMessage(books'[i], script[i], books'[i + 1], notices'[i]) {
        if i < |notices| {
          assert books'[i] == books[i] && books'[i + 1] == books[i + 1] && notices'[i] == notices[i];
        }
      }
    }

    lemma LastTurn(script: seq<Message>, books: seq<Book>, notices: seq<seq<Notice>>, more: seq<Notice>)
      requires Starts(script, books, notices) && |notices| == |script|
      requires Notified(books[|script|], books[|script|].entries, window, more)
      ensures Runs(script, books, notices + [more]) && Flatten(notices + [more]) == Flatten(notices) + more
    {
      hide Setup.TakesMessage;
      FlattenSnoc(notices, more);
      assert (notices + [more])[..|script|] == notices;
    }
  }

  /** What the loop of watch mode receives. */
  datatype Message = Arrived(ev: Event, wall: int) | Timeout(wall: int) | Ended(source: nat)

  lemma TakesNone(setup: Setup, b: Book, ev: Event, wall: int, ticked: seq<Notice>)
    requires Notified(b, Gone(b.entries, setup.W(), setup.NowOf(ev, wall)), setup.window, ticked)
    requires FirstRule(setup.rules, setup.lib, ev).None?
    ensures setup.TakesEvent(b, ev, wall, Book(Kept(b.entries, setup.W(), setup.NowOf(ev, wall)), []), ticked)
  {
    hide Notified, FirstRule, Answers, Kept, Gone;
    assert ticked == ticked + [];
  }

  lemma TakesOne(setup: Setup, b: Book, ev: Event, wall: int, rule: Rule, b': Book,
                 ticked: seq<Notice>, more: seq<Notice>)
    requires FirstRule(setup.rules, setup.lib, ev) == Some(rule)
    requires var now := setup.NowOf(ev, wall);
             Notified(b, Gone(b.entries, setup.W(), now), setup.window, ticked)
             && Answers(Book(Kept(b.entries, setup.W(), now), []), setup.W(), setup.KeyFor(rule, ev),
                        setup.MatchedOf(rule, ev), now, b', more)
    ensures setup.TakesEvent(b, ev, wall, b', ticked + more)
  {
    hide Notified, FirstRule, Answers, Kept, Gone, KeyOf;
  }

  // ----- which events are answered at once -----

  lemma {:induction false} RepeatsAreRepeats(s: seq<Summary<Matched>>, window: nat, m: Matched)
    ensures Match(m) !in RepeatsOf(s, window)
  {
    if s != [] {
      RepeatsAreRepeats(s[1..], window, m);
    }
  }

  /** The table has an open window for a record that this one repeats. */
  ghost predicate OpenFor(entries: Table<Matched>, m: Matched, w: int, now: int) {
    exists k :: k in entries && Alike(entries[k].sample, m) && now - entries[k].start < w
  }

  /** The key is open in what a tick leaves exactly when such a window is. */
  lemma RepeatsIffOpen(rules: seq<Rule>, names: seq<string>, entries: Table<Matched>, m: Matched, w: int, now: int)
    requires Keyed(rules, names, entries) && TellApart(rules, names) && Known(rules, names, m) && 0 <= w <= I64_MAX
    ensures Repeats(Kept(entries, w, now), w, KeyOfRecord(m), now) <==> w > 0 && OpenFor(entries, m, w, now)
  {
    hide Alike, KeyOfRecord, Known, TellApart, Expired;
    var key := KeyOfRecord(m);
    forall k | k in entries
      ensures Alike(entries[k].sample, m) <==> k == key
      ensures w > 0 ==> (Expired(entries[k], w, now) <==> now - entries[k].start >= w)
    {
      KeysTellRecords(rules, names, entries[k].sample, m);
      if w > 0 {
        ExpiredMeans(entries[k], w, now);
      }
    }
  }

  lemma RecordIsKnown(setup: Setup, rule: Rule, ev: Event)
    requires rule in setup.rules
    ensures Known(setup.rules, setup.names, setup.MatchedOf(rule, ev))
    ensures KeyOfRecord(setup.MatchedOf(rule, ev)) == setup.KeyFor(rule, ev)
  {
  }

  /** An event that matches a rule is answered with a notice of its own exactly
      when no window is open for a record of the same rule and source whose message
      normalizes alike. */
  lemma AnsweredAtOnceIff(setup: Setup, b: Book, ev: Event, wall: int, b': Book, out: seq<Notice>)
    requires Keyed(setup.rules, setup.names, b.entries) && TellApart(setup.rules, setup.names)
    requires setup.TakesEvent(b, ev, wall, b', out) && FirstRule(setup.rules, setup.lib, ev).Some?
    ensures var rule := FirstRule(setup.rules, setup.lib, ev).value;
            var source := if ev.source < |setup.names| then setup.names[ev.source] else "";
            var msg := setup.message(ev.format, ev.line);
            var m := Matched(rule.name, source, ev.ts, ev.severity, msg, ev.line, rule.alert);
            var now := if setup.replay && ev.ts != TS_UNTIMED then ev.ts else wall;
            Match(m) in out <==> setup.window == 0 || !OpenFor(b.entries, m, Min(setup.window, I64_MAX), now)
  {
    hide FirstRule, Notified, Kept, Gone, KeyOf, Keyed, TellApart, OpenFor, Repeats, AfterOffer, ClosedBy, HandsOut;
    var rule := FirstRule(setup.rules, setup.lib, ev).value;
    var m, now, w := setup.MatchedOf(rule, ev), setup.NowOf(ev, wall), setup.W();
    FirstRuleIn(setup.rules, setup.lib, ev);
    RecordIsKnown(setup, rule, ev);
    RepeatsIffOpen(setup.rules, setup.names, b.entries, m, w, now);
    var kept := Book(Kept(b.entries, w, now), []);
    var ticked, more :| Notified(b, Gone(b.entries, w, now), setup.window, ticked) && out == ticked + more
                        && Answers(kept, w, setup.KeyFor(rule, ev), m, now, b', more);
    NotifiedRepeats(b, Gone(b.entries, w, now), setup.window, ticked, m);
  }

  lemma NotifiedRepeats(b: Book, gone: Table<Matched>, window: nat, out: seq<Notice>, m: Matched)
    requires Notified(b, gone, window, out)
    ensures Match(m) !in out
  {
    hide HandsOut;
    var s :| HandsOut(b.closed, gone, s) && out == RepeatsOf(s, window);
    RepeatsAreRepeats(s, window, m);
  }

  /** Every turn keeps the entries under the keys of their records. */
  lemma TurnKeepsKeyed(setup: Setup, b: Book, m: Message, b': Book, out: seq<Notice>)
    requires Keyed(setup.rules, setup.names, b.entries) && setup.TakesMessage(b, m, b', out)
    ensures Keyed(setup.rules, setup.names, b'.entries)
  {
    hide FirstRule, Notified, Kept, Gone, KeyOf, Keyed, Repeats, AfterOffer, ClosedBy, HandsOut, Known, KeyOfRecord;
    match m {
      case Arrived(ev, wall) =>
        var now, w := setup.NowOf(ev, wall), setup.W();
        var kept := Kept(b.entries, w, now);
        KeptIsWithin(b.entries, w, now);
        KeyedWithin(setup.rules, setup.names, b.entries, kept);
        FirstRuleIn(setup.rules, setup.lib, ev);
        if FirstRule(setup.rules, setup.lib, ev).Some? {
          var rule := FirstRule(setup.rules, setup.lib, ev).value;
          RecordIsKnown(setup, rule, ev);
          OfferKeyed(setup.rules, setup.names, kept, w, setup.KeyFor(rule, ev), setup.MatchedOf(rule, ev), now);
        }
      case Timeout(wall) =>
        KeptIsWithin(b.entries, setup.W(), wall);
        KeyedWithin(setup.rules, setup.names, b.entries, Kept(b.entries, setup.W(), wall));
      case Ended(_) =>
    }
  }

  lemma {:induction false} RunIsKeyed(setup: Setup, script: seq<Message>, books: seq<Book>, notices: seq<seq<Notice>>,
                                      i: nat)
    requires setup.Starts(script, books, notices) && i < |books|
    ensures Keyed(setup.rules, setup.names, books[i].entries)
  {
    hide Setup.TakesMessage;
    if i > 0 {
      hide Keyed;
      RunIsKeyed(setup, script, books, notices, i - 1);
      assert setup.TakesMessage(books[i - 1], script[i - 1], books[i], notices[i - 1]);
      TurnKeepsKeyed(setup, books[i - 1], script[i - 1], books[i], notices[i - 1]);
    }
  }

  /** So in every run: the turn of a matching event gives it a notice of its own
      exactly then. */
  lemma RunAnswersIff(setup: Setup, script: seq<Message>, books: seq<Book>, notices: seq<seq<Notice>>, i: nat)
    requires setup.Runs(script, books, notices) && TellApart(setup.rules, setup.names)
    requires i < |script| && script[i].Arrived? && FirstRule(setup.rules, setup.lib, script[i].ev).Some?
    ensures var ev := script[i].ev;
            var rule := FirstRule(setup.rules, setup.lib, ev).value;
            var source := if ev.source < |setup.names| then setup.names[ev.source] else "";
            var msg := setup.message(ev.format, ev.line);
            var m := Matched(rule.name, source, ev.ts, ev.severity, msg, ev.line, rule.alert);
            var now := if setup.replay && ev.ts != TS_UNTIMED then ev.ts else script[i].wall;
            Match(m) in notices[i]
            <==> setup.window == 0 || !OpenFor(books[i].entries, m, Min(setup.window, I64_MAX), now)
  {
    hide Setup.TakesEvent, TellApart, Keyed, OpenFor, FirstRule, Notified;
    RunIsKeyed(setup, script, books, notices[..|script|], i);
    assert notices[..|script|][i] == notices[i];
    assert setup.TakesMessage(books[i], script[i], books[i + 1], notices[i]);
    AnsweredAtOnceIff(setup, books[i], script[i].ev, script[i].wall, books[i + 1], notices[i]);
  }

  class Watcher {
    const rules: seq<Rule>
    const names: seq<string>
    const collapse: Collapser<Matched>
    const window: nat
    const replay: bool
    /** Matches per rule name since the start. */
    var matches: map<string, nat>

    ghost predicate Valid()
      reads this, collapse
    {
      collapse.Valid() && collapse.window == Min(window, I64_MAX)
      && (NamesApart(rules) ==> Filed(rules, collapse.entries) && SummariesFiled(rules, collapse.closed))
      && Keyed(rules, names, collapse.entries)
    }

    /** Scopes that can be told from the keys: all events, or, with rule names
        apart, those of one rule. */
    ghost predicate Countable(scope: Scope) { scope.None? || NamesApart(rules) }

    ghost function State(): Book
      reads collapse
    {
      Book(collapse.entries, collapse.closed)
    }

    ghost function StillOwed(scope: Scope): nat
      reads this, collapse
    {
      Owed(rules, collapse.entries, collapse.closed, scope)
    }

    constructor (rules: seq<Rule>, names: seq<string>, window: nat, replay: bool)
      ensures Valid() && matches == map[] && fresh(collapse)
      ensures this.rules == rules && this.names == names && this.window == window && this.replay == replay
      ensures forall scope :: StillOwed(scope) == 0
      ensures State() == Book(map[], [])
    {
      this.rules, this.names, this.window, this.replay := rules, names, window, replay;
      this.collapse := new Collapser<Matched>(window);
      this.matches := map[];
    }

    method Tick(now: int) returns (out: seq<Notice>)
      requires Valid()
      modifies collapse`entries, collapse`closed
      ensures Valid() && State() == Book(Kept(old(collapse.entries), collapse.window, now), [])
      ensures Notified(old(State()), Gone(old(collapse.entries), collapse.window, now), window, out)
      ensures forall scope | Countable(scope) :: Weighed(out, scope) + StillOwed(scope)
                == Owed(rules, old(collapse.entries), old(collapse.closed), scope)
    {
      hide Held, Reported, Reports, Gone, Kept, Filed, SummariesFiled, Keyed;
      KeptIsWithin(collapse.entries, collapse.window, now);
      KeyedWithin(rules, names, collapse.entries, Kept(collapse.entries, collapse.window, now));
      ghost var m, before := collapse.entries, collapse.closed;
      var summaries := collapse.Flush(now);
      out := RepeatNotices(summaries, window);
      ghost var gone := Gone(m, collapse.window, now);
      if NamesApart(rules) {
        FiledParts(rules, m, collapse.window, now);
        HandedOutFiled(rules, before, summaries, gone);
      }
      NothingFiled(rules);
      forall scope | Countable(scope)
        ensures Weighed(out, scope) + StillOwed(scope) == Owed(rules, m, before, scope)
      {
        HandedOut(rules, before, summaries, gone, scope);
        HeldSplit(m, collapse.window, now, KeyPick(rules, scope));
        RepeatsWeigh(rules, summaries, window, scope);
        NothingOwed(rules, scope);
      }
    }

    method Finish() returns (out: seq<Notice>)
      requires Valid()
      modifies collapse`entries, collapse`closed
      ensures Valid()
      ensures Notified(old(State()), old(collapse.entries), window, out)
      ensures forall scope | Countable(scope) :: Weighed(out, scope)
                == Owed(rules, old(collapse.entries), old(collapse.closed), scope) && StillOwed(scope) == 0
    {
      hide Held, Reported, Reports, Filed, SummariesFiled, KeyPick, NamesApart, RepeatsOf;
      ghost var m, before := collapse.entries, collapse.closed;
      var summaries := collapse.Finish();
      out := RepeatNotices(summaries, window);
      if NamesApart(rules) {
        HandedOutFiled(rules, before, summaries, m);
      }
      NothingFiled(rules);
      forall scope | Countable(scope)
        ensures Weighed(out, scope) == Owed(rules, m, before, scope) && StillOwed(scope) == 0
      {
        HandedOut(rules, before, summaries, m, scope);
        RepeatsWeigh(rules, summaries, window, scope);
        NothingOwed(rules, scope);
      }
    }

    /** Offer one matching record to the collapser; it goes out or is owed. */
    method Report(key: string, m: Matched, now: int) returns (out: seq<Notice>)
      requires Valid() && (NamesApart(rules) ==> Owner(rules, key) == m.rule)
      requires key == KeyOfRecord(m) && Known(rules, names, m)
      modifies collapse`entries, collapse`closed
      ensures Valid()
      ensures Answers(old(State()), collapse.window, key, m, now, State(), out)
      ensures forall scope: Scope | Countable(scope) ::
                Weighed(out, scope) + StillOwed(scope)
                == Owed(rules, old(collapse.entries), old(collapse.closed), scope) + InScopeCount(scope, m.rule)
    {
      hide Reports, Filed, SummariesFiled, Owed, AfterOffer, ClosedBy, Repeats, Owner, Keyed, KeyOfRecord, Known;
      ghost var table, before := collapse.entries, collapse.closed;
      OfferKeyed(rules, names, table, collapse.window, key, m, now);
      var v := collapse.Offer(key, m, now);
      out := if v.Emit? then [Match(m)] else [];
      if NamesApart(rules) {
        OfferFiled(rules, table, collapse.window, key, m, now);
        ClosedFiled(rules, before, collapse.closed, table, collapse.window, key, now);
      }
      forall scope | Countable(scope)
        ensures Weighed(out, scope) + StillOwed(scope)
             == Owed(rules, table, before, scope) + InScopeCount(scope, m.rule)
      {
        OfferOwed(rules, table, before, collapse.window, key, m, now, collapse.entries, collapse.closed, scope);
      }
    }

    /** The record of a rule that matched: counted, and offered under its key. */
    method TakeRecord(rule: Rule, lib: P.Library, message: (P.LogFormat, Bytes) -> string, ev: Event, now: int)
      returns (out: seq<Notice>)
      requires Valid() && rule in rules
      modifies this`matches, collapse`entries, collapse`closed
      ensures Valid()
      ensures matches == old(matches)[rule.name := CountFor(old(matches), rule.name) + 1]
      ensures var setup := Setup(rules, names, window, replay, lib, message);
              Answers(old(State()), setup.W(), setup.KeyFor(rule, ev), setup.MatchedOf(rule, ev), now, State(), out)
      ensures forall scope | Countable(scope) ::
                Weighed(out, scope) + StillOwed(scope)
                == Owed(rules, old(collapse.entries), old(collapse.closed), scope) + InScopeCount(scope, rule.name)
    {
      hide Filed, SummariesFiled, Weighed, Owed, Owner, Normalize, Answers, Keyed;
      matches := matches[rule.name := (if rule.name in matches then matches[rule.name] else 0) + 1];
      var msg := message(ev.format, ev.line);
      var source := if ev.source < |names| then names[ev.source] else "";
      var text := NormalizeMessage(msg);
      var key := rule.name + [SEP] + source + [SEP] + text;
      var m := Matched(rule.name, source, ev.ts, ev.severity, msg, ev.line, rule.alert);
      if NamesApart(rules) {
        OwnerOfKey(rules, rule, source, msg);
      }
      out := Report(key, m, now);
    }

    /** One event. `message` extracts the text of a line. */
    method OnEvent(lib: P.Library, message: (P.LogFormat, Bytes) -> string, ev: Event, wall: int)
      returns (out: seq<Notice>)
      requires Valid()
      modifies this`matches, collapse`entries, collapse`closed
      ensures Valid()
      ensures forall scope | Countable(scope) ::
                Weighed(out, scope) + StillOwed(scope)
                == Owed(rules, old(collapse.entries), old(collapse.closed), scope) + Matching(rules, lib, ev, scope)
      ensures matches == Counted(old(matches), FirstRule(rules, lib, ev))
      ensures Setup(rules, names, window, replay, lib, message).TakesEvent(old(State()), ev, wall, State(), out)
      ensures FirstRule(rules, lib, ev).Some? && TellApart(rules, names) ==>
                var rule := FirstRule(rules, lib, ev).value;
                var source := if ev.source < |names| then names[ev.source] else "";
                var msg := message(ev.format, ev.line);
                var m := Matched(rule.name, source, ev.ts, ev.severity, msg, ev.line, rule.alert);
                var now := if replay && ev.ts != TS_UNTIMED then ev.ts else wall;
                Match(m) in out <==> window == 0 || !OpenFor(old(collapse.entries), m, Min(window, I64_MAX), now)
    {
      hide TellApart, OpenFor, Keyed, Filed, SummariesFiled, Weighed, Owed, FirstRule, KeyOf, Notified, Answers, Kept,
          Gone, Setup.TakesEvent, P.Holds;
      ghost var setup := Setup(rules, names, window, replay, lib, message);
      ghost var was := State();
      var now := if replay && ev.ts != TS_UNTIMED then ev.ts else wall;
      var ticked := Tick(now);
      var found := FindRule(rules, lib, ev);
      if found.None? {
        TakesNone(setup, was, ev, wall, ticked);
        return ticked;
      }
      FirstRuleIn(rules, lib, ev);
      var more := TakeRecord(found.value, lib, message, ev, now);
      out := ticked + more;
      TakesOne(setup, was, ev, wall, found.value, State(), ticked, more);
      if TellApart(rules, names) {
        AnsweredAtOnceIff(setup, was, ev, wall, State(), out);
      }
      forall scope | Countable(scope)
        ensures Weighed(out, scope) == Weighed(ticked, scope) + Weighed(more, scope)
      {
        WeighedConcat(ticked, more, scope);
      }
    }
  }

  /** How many of the events of a scope one event is. */
  function Matching(rules: seq<Rule>, lib: P.Library, ev: Event, scope: Scope): nat {
    var r := FirstRule(rules, lib, ev);
    if r.Some? then InScopeCount(scope, r.value.name) else 0
  }

  function Counted(matches: map<string, nat>, r: Option<Rule>): map<string, nat> {
    if r.None? then matches
    else matches[r.value.name := (if r.value.name in matches then matches[r.value.name] else 0) + 1]
  }

  lemma {:induction false} FirstRuleIn(rules: seq<Rule>, lib: P.Library, ev: Event)
    ensures FirstRule(rules, lib, ev).Some? ==> FirstRule(rules, lib, ev).value in rules
  {
    hide RuleMatches;
    if rules != [] {
      FirstRuleIn(rules[1..], lib, ev);
    }
  }

  lemma FiledParts(rules: seq<Rule>, m: Table<Matched>, window: int, now: int)
    requires Filed(rules, m)
    ensures Filed(rules, Kept(m, window, now)) && Filed(rules, Gone(m, window, now))
  {
  }

  lemma NothingFiled(rules: seq<Rule>)
    ensures SummariesFiled(rules, []) && Filed(rules, map[])
  {
  }

  lemma NothingOwed(rules: seq<Rule>, scope: Scope)
    ensures Reported<Matched>([], KeyPick(rules, scope)) == 0 && Held<Matched>(map[], KeyPick(rules, scope)) == 0
  {
  }

  lemma ClosedFiled(rules: seq<Rule>, before: seq<Summary<Matched>>, closed: seq<Summary<Matched>>, m: Table<Matched>,
                    window: int, key: string, now: int)
    requires SummariesFiled(rules, before) && before <= closed && Filed(rules, ClosedBy(m, window, key, now))
    requires closed == before || Reports(closed[|before|..], ClosedBy(m, window, key, now))
    ensures SummariesFiled(rules, closed)
  {
    hide Reports, ClosedBy, Filed;
    if closed != before {
      HandedOutFiled(rules, before, closed, ClosedBy(m, window, key, now));
    }
  }

  // ----- a whole run -----

  function CountOf(rules: seq<Rule>, lib: P.Library, m: Message, scope: Scope): nat {
    if m.Arrived? then Matching(rules, lib, m.ev, scope) else 0
  }

  /** Events of a scope that match a rule. */
  function MatchingIn(rules: seq<Rule>, lib: P.Library, script: seq<Message>, scope: Scope): nat {
    if script == [] then 0 else CountOf(rules, lib, script[0], scope) + MatchingIn(rules, lib, script[1..], scope)
  }

  function CountFor(matches: map<string, nat>, rule: string): nat {
    if rule in matches then matches[rule] else 0
  }

  /** One turn of the loop; a replay does not tick on timeouts. */
  method Turn(w: Watcher, lib: P.Library, message: (P.LogFormat, Bytes) -> string, m: Message)
    returns (notices: seq<Notice>)
    requires w.Valid()
    modifies w`matches, w.collapse`entries, w.collapse`closed
    ensures w.Valid()
    ensures forall scope | w.Countable(scope) ::
              Weighed(notices, scope) + w.StillOwed(scope)
              == Owed(w.rules, old(w.collapse.entries), old(w.collapse.closed), scope) + CountOf(w.rules, lib, m, scope)
    ensures forall name ::
              CountFor(w.matches, name) == CountFor(old(w.matches), name) + CountOf(w.rules, lib, m, Some(name))
    ensures Setup(w.rules, w.names, w.window, w.replay, lib, message)
              .TakesMessage(old(w.State()), m, w.State(), notices)
  {
    hide Weighed, Filed, SummariesFiled, Matching, Counted, Owed, Notified, Kept, Gone, Keyed, TellApart, OpenFor,
        FirstRule, Setup.TakesEvent;
    ghost var matches0 := w.matches;
    notices := [];
    forall scope
      ensures Weighed([], scope) == 0
    {
      WeighedNothing(scope);
    }
    match m {
      case Arrived(ev, wall) =>
        notices := w.OnEvent(lib, message, ev, wall);
        forall name
          ensures CountFor(w.matches, name) == CountFor(matches0, name) + Matching(w.rules, lib, ev, Some(name))
        {
          CountedFor(matches0, w.rules, lib, ev, name);
        }
      case Timeout(wall) =>
        if !w.replay {
          notices := w.Tick(wall);
        }
      case Ended(_) =>
    }
  }

  /** The loop of `run_plan` until all sources have ended or the feed is gone,
      closed by `finish`. Whatever the clock does, and even with the table
      full, every event that matched a rule is reported: in its own notice or in
      the count of a repeat. With rule names apart this holds for each rule, and
      the counter of a rule always tells how many events it matched. */
  method RunPlan(rules: seq<Rule>, names: seq<string>, window: nat, replay: bool, lib: P.Library,
                 message: (P.LogFormat, Bytes) -> string, script: seq<Message>)
    returns (out: seq<Notice>, counters: map<string, nat>, ghost books: seq<Book>, ghost notices: seq<seq<Notice>>)
    ensures Setup(rules, names, window, replay, lib, message).Runs(script, books, notices) && out == Flatten(notices)
    ensures Weighed(out, None) == MatchingIn(rules, lib, script, None)
    ensures NamesApart(rules) ==>
              forall name :: Weighed(out, Some(name)) == MatchingIn(rules, lib, script, Some(name))
    ensures forall name :: CountFor(counters, name) == MatchingIn(rules, lib, script, Some(name))
  {
    hide Weighed, MatchingIn, CountOf, Owed, CountFor, NamesApart, Notified, Flatten, Keyed, Filed, SummariesFiled;
    var w := new Watcher(rules, names, window, replay);
    ghost var setup := Setup(rules, names, window, replay, lib, message);
    out := [];
    books, notices := [w.State()], [];
    RunStarts(rules, lib, script);
    for i := 0 to |script|
      invariant fresh(w) && fresh(w.collapse) && w.Valid()
      invariant w.rules == rules && w.names == names && w.window == window && w.replay == replay
      invariant |notices| == i && setup.Starts(script, books, notices) && books[i] == w.State()
      invariant out == Flatten(notices)
      invariant forall scope | w.Countable(scope) ::
                  Weighed(out, scope) + w.StillOwed(scope) + MatchingIn(rules, lib, script[i..], scope)
                  == MatchingIn(rules, lib, script, scope)
      invariant forall name ::
                  CountFor(w.matches, name) + MatchingIn(rules, lib, script[i..], Some(name))
                  == MatchingIn(rules, lib, script, Some(name))
    {
      ghost var out0 := out;
      var more := Turn(w, lib, message, script[i]);
      setup.OneMoreTurn(script, books, notices, w.State(), more);
      books, notices := books + [w.State()], notices + [more];
      out := out + more;
      forall scope
        ensures Weighed(out, scope) == Weighed(out0, scope) + Weighed(more, scope)
        ensures MatchingIn(rules, lib, script[i..], scope)
             == CountOf(rules, lib, script[i], scope) + MatchingIn(rules, lib, script[i + 1..], scope)
      {
        MatchingStep(rules, lib, script, i, scope);
        WeighedConcat(out0, more, scope);
      }
    }
    ghost var out0 := out;
    var last := w.Finish();
    setup.LastTurn(script, books, notices, last);
    notices := notices + [last];
    out := out + last;
    counters := w.matches;
    forall scope
      ensures Weighed(out, scope) == Weighed(out0, scope) + Weighed(last, scope)
      ensures MatchingIn(rules, lib, script[|script|..], scope) == 0
    {
      WeighedConcat(out0, last, scope);
      MatchingStep(rules, lib, script, |script|, scope);
    }
  }

  lemma RunStarts(rules: seq<Rule>, lib: P.Library, script: seq<Message>)
    ensures script[0..] == script && Flatten<Notice>([]) == []
    ensures forall scope :: Weighed([], scope) == 0
    ensures forall name :: CountFor(map[], name) == 0
  {
  }

  lemma WeighedNothing(scope: Scope)
    ensures Weighed([], scope) == 0
  {
  }

  lemma MatchingStep(rules: seq<Rule>, lib: P.Library, script: seq<Message>, i: nat, scope: Scope)
    requires i <= |script|
    ensures MatchingIn(rules, lib, script[i..], scope)
         == if i == |script| then 0
            else CountOf(rules, lib, script[i], scope) + MatchingIn(rules, lib, script[i + 1..], scope)
  {
    hide CountOf;
    if i < |script| {
      assert script[i..][1..] == script[i + 1..];
    }
  }

  lemma CountedFor(matches: map<string, nat>, rules: seq<Rule>, lib: P.Library, ev: Event, name: string)
    ensures CountFor(Counted(matches, FirstRule(rules, lib, ev)), name)
         == CountFor(matches, name) + Matching(rules, lib, ev, Some(name))
  {
    hide FirstRule;
  }

  // ----- a run in which two rules share a key -----

  const ON_TIME := Event(0, P.Ndjson, 1, 0, "")
  const EARLY := Event(1, P.Ndjson, -1, 0, "")

  /** Rule `a` takes the events from time 0 on, rule `a` with the separator and `r`
      takes the rest; the sources are named so that both make the same key. */
  function Sharing(a: string, r: string, window: nat, lib: P.Library): Setup {
    Setup([Rule(a, "", false, P.TimeRange(0, P.GreaterEq)), Rule(a + [SEP] + r, "", false, P.And([]))],
          [r + [SEP], ""], window, false, lib, (f, l) => "")
  }

  function Script(): seq<Message> { [Arrived(ON_TIME, 0), Arrived(EARLY, 0), Arrived(ON_TIME, 0)] }

  /** What the collapser holds after `n` repeats of a first record. */
  function One(key: string, first: Matched, last: Option<Matched>, n: nat): Table<Matched> {
    map[key := Entry(0, n, first, last)]
  }

  lemma SilentTick(b: Book, w: int, window: nat, out: seq<Notice>)
    requires w > 0 && b.closed == [] && (forall k | k in b.entries :: b.entries[k].start == 0)
    requires Notified(b, Gone(b.entries, w, 0), window, out)
    ensures out == [] && Kept(b.entries, w, 0) == b.entries
  {
    assert Gone(b.entries, w, 0) == map[];
    var s: seq<Summary<Matched>> :| HandsOut(b.closed, Gone(b.entries, w, 0), s) && out == RepeatsOf(s, window);
    NothingHanded(s);
  }

  lemma NothingHanded(s: seq<Summary<Matched>>)
    requires HandsOut([], map[], s)
    ensures s == []
  {
    assert s[0..] == s;
    HeadIn(s);
  }

  lemma HeadIn(s: seq<Summary<Matched>>)
    ensures s != [] ==> s[0] in s
  {
  }

  lemma FirstAnswer(w: int, key: string, m: Matched, b': Book, out: seq<Notice>)
    requires 0 < w && Answers(Book(map[], []), w, key, m, 0, b', out)
    ensures out == [Match(m)] && b' == Book(One(key, m, None, 0), [])
  {
    var none: Table<Matched> := map[];
    assert none - {key} == none && ClosedBy(none, w, key, 0) == none;
    NothingHanded(b'.closed);
  }

  lemma RepeatAnswer(w: int, key: string, first: Matched, last: Option<Matched>, n: nat, m: Matched,
                     b': Book, out: seq<Notice>)
    requires 0 < w && Answers(Book(One(key, first, last, n), []), w, key, m, 0, b', out)
    ensures out == [] && b' == Book(One(key, first, Some(m), n + 1), [])
  {
  }

  lemma OneReport(key: string, first: Matched, last: Matched, n: nat, window: nat, out: seq<Notice>)
    requires n > 0 && Notified(Book(One(key, first, Some(last), n), []), One(key, first, Some(last), n), window, out)
    ensures out == [Repeat(first, last, n, window)]
  {
    var m := One(key, first, Some(last), n);
    var s: seq<Summary<Matched>> :| HandsOut([], m, s) && out == RepeatsOf(s, window);
    assert s[0..] == s && Reports(s, m);
    assert SummaryOf(key, m[key]) in s;
    assert forall i | 0 <= i < |s| :: s[i] in s && s[i].key == key;
    if |s| > 1 {
      KeyTwice(s, key);
    }
    assert s[1..] == [];
    assert RepeatsOf(s, window) == [RepeatOf(s[0], window)] + RepeatsOf(s[1..], window);
  }

  lemma KeyTwice(s: seq<Summary<Matched>>, key: string)
    requires |s| > 1 && forall i | 0 <= i < |s| :: s[i].key == key
    ensures s[0].key == s[1].key
  {
  }

  lemma SharingTakes(a: string, r: string, window: nat, lib: P.Library)
    ensures var setup := Sharing(a, r, window, lib);
            FirstRule(setup.rules, lib, ON_TIME) == Some(setup.rules[0])
            && FirstRule(setup.rules, lib, EARLY) == Some(setup.rules[1])
            && setup.KeyFor(setup.rules[0], ON_TIME) == setup.KeyFor(setup.rules[1], EARLY)
  {
    hide KeyOf;
    SameKey(a, r);
    var setup := Sharing(a, r, window, lib);
    assert setup.rules[1..] == [setup.rules[1]];
  }

  /** One event of the run: the tick is silent, and the record is answered. */
  lemma SharingTurn(setup: Setup, b: Book, ev: Event, rule: Rule, b': Book, out: seq<Notice>)
    requires setup.W() > 0 && !setup.replay && FirstRule(setup.rules, setup.lib, ev) == Some(rule)
    requires b.closed == [] && forall k | k in b.entries :: b.entries[k].start == 0
    requires setup.TakesMessage(b, Arrived(ev, 0), b', out)
    ensures Answers(b, setup.W(), setup.KeyFor(rule, ev), setup.MatchedOf(rule, ev), 0, b', out)
  {
    hide Answers, FirstRule, Notified, Kept, Gone, KeyOf;
    var w := setup.W();
    var kept := Book(Kept(b.entries, w, 0), []);
    var ticked, more :| Notified(b, Gone(b.entries, w, 0), setup.window, ticked) && out == ticked + more
                        && Answers(kept, w, setup.KeyFor(rule, ev), setup.MatchedOf(rule, ev), 0, b', more);
    SilentTick(b, w, setup.window, ticked);
    assert [] + more == more;
  }

  /** In every such run rule `a` is charged for three events though it matched two,
      and the other rule for none though it matched one: the repeat counts the
      other rule's event and carries the last record, which is one of `a`. */
  lemma SharedKeyMiscounts(a: string, r: string, window: nat, lib: P.Library,
                           books: seq<Book>, notices: seq<seq<Notice>>)
    requires window > 0 && Sharing(a, r, window, lib).Runs(Script(), books, notices)
    ensures var b := a + [SEP] + r;
            Weighed(Flatten(notices), Some(a)) == 3 && Weighed(Flatten(notices), Some(b)) == 0
    ensures var rules, b := Sharing(a, r, window, lib).rules, a + [SEP] + r;
            MatchingIn(rules, lib, Script(), Some(a)) == 2 && MatchingIn(rules, lib, Script(), Some(b)) == 1
  {
    hide Answers, FirstRule, Notified, KeyOf, Setup.TakesMessage;
    var setup := Sharing(a, r, window, lib);
    var ra, rb := setup.rules[0], setup.rules[1];
    var key, w := setup.KeyFor(ra, ON_TIME), setup.W();
    var ma, mb := setup.MatchedOf(ra, ON_TIME), setup.MatchedOf(rb, EARLY);
    SharingTakes(a, r, window, lib);
    assert forall i | 0 <= i < 3 :: notices[..3][i] == notices[i];
    assert setup.TakesMessage(books[0], Script()[0], books[1], notices[..3][0]);
    assert setup.TakesMessage(books[1], Script()[1], books[2], notices[..3][1]);
    assert setup.TakesMessage(books[2], Script()[2], books[3], notices[..3][2]);
    SharingTurn(setup, books[0], ON_TIME, ra, books[1], notices[0]);
    FirstAnswer(w, key, ma, books[1], notices[0]);
    SharingTurn(setup, books[1], EARLY, rb, books[2], notices[1]);
    RepeatAnswer(w, key, ma, None, 0, mb, books[2], notices[1]);
    SharingTurn(setup, books[2], ON_TIME, ra, books[3], notices[2]);
    RepeatAnswer(w, key, ma, Some(mb), 1, ma, books[3], notices[2]);
    OneReport(key, ma, ma, 2, window, notices[3]);
    ThreeTurns(notices);
    ChargedFor(ma, notices[3], a, a + [SEP] + r);
    SharingMatches(a, r, window, lib);
  }

  lemma FlattenHead(notices: seq<seq<Notice>>)
    requires notices != []
    ensures Flatten(notices) == notices[0] + Flatten(notices[1..])
  {
  }

  lemma ThreeTurns(notices: seq<seq<Notice>>)
    requires |notices| == 4 && notices[1] == notices[2] == []
    ensures Flatten(notices) == notices[0] + notices[3]
  {
    FlattenHead(notices);
    FlattenHead(notices[1..]);
    FlattenHead(notices[1..][1..]);
    FlattenHead(notices[1..][1..][1..]);
    assert notices[1..][1..][1..][0] == notices[3] && notices[1..][1..][1..][1..] == [];
    assert Flatten(notices[1..]) == [] + ([] + (notices[3] + [])) == notices[3];
  }

  lemma ChargedOne(n: Notice, scope: Scope)
    ensures Weighed([n], scope) == if InScope(scope, n.Subject().rule) then Weight(n) else 0
  {
    assert [n][1..] == [];
  }

  lemma ChargedFor(ma: Matched, last: seq<Notice>, a: string, b: string)
    requires ma.rule == a != b && |last| == 1 && last[0].Repeat? && last[0].last == ma && last[0].count == 2
    ensures Weighed([Match(ma)] + last, Some(a)) == 3 && Weighed([Match(ma)] + last, Some(b)) == 0
  {
    hide Weighed;
    assert last == [last[0]];
    forall scope | scope in [Some(a), Some(b)]
      ensures Weighed([Match(ma)] + last, scope) == if scope == Some(a) then 3 else 0
    {
      WeighedConcat([Match(ma)], last, scope);
      ChargedOne(Match(ma), scope);
      ChargedOne(last[0], scope);
    }
    assert Some(a) in [Some(a), Some(b)] && Some(b) in [Some(a), Some(b)];
  }

  lemma SharingMatches(a: string, r: string, window: nat, lib: P.Library)
    ensures var rules, b := Sharing(a, r, window, lib).rules, a + [SEP] + r;
            MatchingIn(rules, lib, Script(), Some(a)) == 2 && MatchingIn(rules, lib, Script(), Some(b)) == 1
  {
    hide FirstRule, KeyOf, MatchingIn;
    var rules, b := Sharing(a, r, window, lib).rules, a + [SEP] + r;
    SharingTakes(a, r, window, lib);
    assert |b| > |a|;
    var script := Script();
    assert script[0..] == script;
    forall scope | scope in [Some(a), Some(b)]
      ensures MatchingIn(rules, lib, script, scope) == if scope == Some(a) then 2 else 1
    {
      MatchingStep(rules, lib, script, 0, scope);
      MatchingStep(rules, lib, script, 1, scope);
      MatchingStep(rules, lib, script, 2, scope);
      MatchingStep(rules, lib, script, 3, scope);
    }
    assert Some(a) in [Some(a), Some(b)] && Some(b) in [Some(a), Some(b)];
  }
}
