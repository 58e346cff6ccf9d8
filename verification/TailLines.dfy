/** The backwards line reader: steps back from the end of a file until enough
    newlines are in hand, then keeps the last `n` nonblank lines. */
module TailLines {
  import opened Common

  // ----- lines -----

  /** The pieces between newlines. */
  function Split(s: Bytes): (pieces: seq<Bytes>)
    ensures |pieces| == Newlines(s) + 1
  {
    if s == "" then [""]
    else
      var rest := Split(s[1..]);
      if s[0] == '\n' then [""] + rest else [[s[0]] + rest[0]] + rest[1..]
  }

  function Newlines(s: Bytes): nat {
    if s == "" then 0 else Newlines(s[1..]) + if s[0] == '\n' then 1 else 0
  }

  /** One trailing carriage return is cut off. */
  function Clean(piece: Bytes): Bytes {
    if piece != "" && piece[|piece| - 1] == '\r' then piece[..|piece| - 1] else piece
  }

  function Keep(pieces: seq<Bytes>): seq<Bytes> {
    if pieces == [] then []
    else (if Clean(pieces[0]) != "" then [Clean(pieces[0])] else []) + Keep(pieces[1..])
  }

  function Blanks(pieces: seq<Bytes>): nat {
    if pieces == [] then 0 else Blanks(pieces[1..]) + if Clean(pieces[0]) == "" then 1 else 0
  }

  /** The nonblank lines of a text. */
  function Lines(s: Bytes): seq<Bytes> { Keep(Split(s)) }

  function Join(pieces: seq<Bytes>): Bytes
    requires pieces != []
  {
    if |pieces| == 1 then pieces[0] else pieces[0] + "\n" + Join(pieces[1..])
  }

  /** The pieces hold no newline, and put together they are the text. */
  lemma {:induction false} SplitJoins(s: Bytes)
    ensures Join(Split(s)) == s && forall p <- Split(s) :: '\n' !in p
  {
    if s != "" {
      SplitJoins(s[1..]);
      var rest := Split(s[1..]);
      assert s == [s[0]] + s[1..];
      if s[0] == '\n' {
        assert ([""] + rest)[1..] == rest;
        assert "" + "\n" + Join(rest) == ['\n'] + Join(rest);
      } else {
        JoinCons(s[0], rest);
      }
    }
  }

  lemma JoinCons(c: char, rest: seq<Bytes>)
    requires rest != []
    ensures Join([[c] + rest[0]] + rest[1..]) == [c] + Join(rest)
  {
    assert ([[c] + rest[0]] + rest[1..])[1..] == rest[1..];
    if |rest| > 1 {
      assert ([c] + rest[0]) + "\n" + Join(rest[1..]) == [c] + (rest[0] + "\n" + Join(rest[1..]));
    }
  }

  lemma {:induction false} KeepConcat(a: seq<Bytes>, b: seq<Bytes>)
    ensures Keep(a + b) == Keep(a) + Keep(b)
  {
    if a == [] {
      assert a + b == b;
    } else {
      assert (a + b)[1..] == a[1..] + b;
      KeepConcat(a[1..], b);
    }
  }

  lemma {:induction false} KeepCounts(pieces: seq<Bytes>)
    ensures |Keep(pieces)| == |pieces| - Blanks(pieces)
  {
    if pieces != [] {
      KeepCounts(pieces[1..]);
    }
  }

  lemma SplitHead(c: char, rest: Bytes)
    ensures var r := Split(rest);
            Split([c] + rest) == if c == '\n' then [""] + r else [[c] + r[0]] + r[1..]
  {
    assert ([c] + rest)[1..] == rest;
  }

  lemma SplitNothing(b: Bytes)
    ensures Split("") == [""] && "" + b == b
  {
  }

  lemma {:induction false} SplitConcat(a: Bytes, b: Bytes)
    ensures var x, y := Split(a), Split(b);
            Split(a + b) == x[..|x| - 1] + [x[|x| - 1] + y[0]] + y[1..]
  {
    hide Split, Newlines;
    if a == "" {
      SplitNothing(b);
      SplitNothing(Split(b)[0]);
    } else {
      var a' := a[1..];
      SplitConcat(a', b);
      assert a == [a[0]] + a' && a + b == [a[0]] + (a' + b);
      SplitHead(a[0], a');
      SplitHead(a[0], a' + b);
      SplitStep(a[0], Split(a'), Split(b));
    }
  }

  lemma SplitStep(c: char, x: seq<Bytes>, y: seq<Bytes>)
    requires x != [] && y != []
    ensures var whole := x[..|x| - 1] + [x[|x| - 1] + y[0]] + y[1..];
            if c == '\n' then
              var x' := [""] + x;
              [""] + whole == x'[..|x'| - 1] + [x'[|x'| - 1] + y[0]] + y[1..]
            else
              var x' := [[c] + x[0]] + x[1..];
              [[c] + whole[0]] + whole[1..] == x'[..|x'| - 1] + [x'[|x'| - 1] + y[0]] + y[1..]
  {
    if c != '\n' && |x| == 1 {
      assert [c] + (x[0] + y[0]) == ([c] + x[0]) + y[0];
    }
  }

  // ----- the reader -----

  /** Where the loop stops reading. */
  function StopAt(file: Bytes, n: nat, step: nat, max: nat, pos: nat): (p: nat)
    requires step > 0 && pos <= |file|
    ensures p <= pos
    ensures p == 0 || |file| - p >= max || Newlines(file[p..]) > n
    decreases pos
  {
    if pos == 0 || |file| - pos >= max then pos
    else
      var next := pos - Min(step, pos);
      if Newlines(file[next..]) > n then next else StopAt(file, n, step, max, next)
  }

  /** Where the file is read from after some steps. */
  function After(file: Bytes, step: nat, i: nat): (p: nat)
    ensures p <= |file|
  {
    Max(|file| - i * step, 0)
  }

  /** The loop goes back step by step from the end, and stops after the first number
      of steps that reads the whole file or the cap, or more than `n` newlines. */
  lemma {:induction false} StopsAtFirst(file: Bytes, n: nat, step: nat, max: nat, i: nat) returns (k: nat)
    requires step > 0
    ensures k >= i && StopAt(file, n, step, max, After(file, step, i)) == After(file, step, k)
    ensures var p := After(file, step, k);
            p == 0 || |file| - p >= max || (k > i && Newlines(file[p..]) > n)
    ensures forall j | i <= j < k :: After(file, step, j) > 0 && |file| - After(file, step, j) < max
    ensures forall j | i < j < k :: Newlines(file[After(file, step, j)..]) <= n
    decreases After(file, step, i)
  {
    hide Newlines, StopAt, After;
    var pos, next := After(file, step, i), After(file, step, i + 1);
    StopStep(file, n, step, max, pos);
    NextStep(file, step, i);
    k := i;
    if pos > 0 && |file| - pos < max {
      k := i + 1;
      if Newlines(file[next..]) <= n {
        k := StopsAtFirst(file, n, step, max, i + 1);
      }
    }
  }

  lemma NextStep(file: Bytes, step: nat, i: nat)
    requires step > 0
    ensures var pos := After(file, step, i);
            After(file, step, i + 1) == pos - Min(step, pos)
  {
    assert (i + 1) * step == i * step + step;
  }

  /** The lines in hand: those read, without the first if it may be cut. */
  function InHand(file: Bytes, pos: nat): seq<Bytes>
    requires pos <= |file|
  {
    var lines := Lines(file[pos..]);
    if pos > 0 && lines != [] then lines[1..] else lines
  }

  function Tail(file: Bytes, n: nat, step: nat, max: nat): seq<Bytes>
    requires step > 0
  {
    LastK(InHand(file, StopAt(file, n, step, max, |file|)), n)
  }

  lemma StopStep(file: Bytes, n: nat, step: nat, max: nat, pos: nat)
    requires step > 0 && pos <= |file|
    ensures StopAt(file, n, step, max, pos) ==
            if pos == 0 || |file| - pos >= max then pos
            else
              var next := pos - Min(step, pos);
              if Newlines(file[next..]) > n then next else StopAt(file, n, step, max, next)
  {
  }

  /** `tail_lines`; the source steps by 64 KiB and stops at 16 MiB. */
  method TailLines(file: Bytes, n: nat, step: nat, max: nat) returns (lines: seq<Bytes>)
    requires step > 0
    ensures lines == Tail(file, n, step, max)
    ensures |lines| <= n
  {
    hide Lines, Newlines, StopAt;
    var pos: nat := |file|;
    var buf: Bytes := "";
    var done := false;
    while pos > 0 && |buf| < max && !done
      invariant pos <= |file| && buf == file[pos..]
      invariant StopAt(file, n, step, max, |file|) == if done then pos else StopAt(file, n, step, max, pos)
      decreases pos, !done
    {
      StopStep(file, n, step, max, pos);
      var size := Min(step, pos);
      var chunk := file[pos - size..pos];
      SplitAt(file, pos - size, pos);
      pos := pos - size;
      buf := chunk + buf;
      done := Newlines(buf) > n;
    }
    StopStep(file, n, step, max, pos);
    lines := Lines(buf);
    if pos > 0 && lines != [] { lines := lines[1..]; }
    var skip := if |lines| > n then |lines| - n else 0;
    lines := lines[skip..];
  }

  lemma SplitAt(s: Bytes, i: nat, j: nat)
    requires i <= j <= |s|
    ensures s[i..j] + s[j..] == s[i..]
  {
  }

  // ----- what a line is -----

  lemma {:induction false} SplitLine(l: Bytes, rest: Bytes)
    requires '\n' !in l
    ensures Split(l + ("\n" + rest)) == [l] + Split(rest)
  {
    var s := l + ("\n" + rest);
    if l == "" {
      assert s == "\n" + rest && s[1..] == rest;
    } else {
      assert s[1..] == l[1..] + ("\n" + rest) && s[0] == l[0];
      SplitLine(l[1..], rest);
      assert [l[0]] + l[1..] == l;
    }
  }

  lemma {:induction false} SplitWhole(l: Bytes)
    requires '\n' !in l
    ensures Split(l) == [l]
  {
    if l != "" {
      assert l[0] in l;
      SplitWhole(l[1..]);
      assert [l[0]] + l[1..] == l;
    }
  }

  /** A line as written: its text, and whether a carriage return ends it too. */
  datatype Written = Written(text: Bytes, crlf: bool)

  predicate Writable(text: Bytes) { '\n' !in text && (text != "" ==> text[|text| - 1] != '\r') }

  function FileText(ls: seq<Written>): Bytes {
    if ls == [] then "" else ls[0].text + (if ls[0].crlf then "\r\n" else "\n") + FileText(ls[1..])
  }

  function NonBlank(ls: seq<Written>): seq<Bytes> {
    if ls == [] then [] else (if ls[0].text != "" then [ls[0].text] else []) + NonBlank(ls[1..])
  }

  function PieceOf(l: Written): Bytes { if l.crlf then l.text + "\r" else l.text }

  /** The first line and the rest. */
  lemma FirstWritten(ls: seq<Written>, last: Bytes)
    requires ls != [] && Writable(ls[0].text)
    ensures FileText(ls) + last == PieceOf(ls[0]) + ("\n" + (FileText(ls[1..]) + last))
    ensures Lines(FileText(ls) + last)
         == (if ls[0].text != "" then [ls[0].text] else []) + Lines(FileText(ls[1..]) + last)
  {
    hide Split, Keep, Clean;
    var l, more := ls[0], FileText(ls[1..]) + last;
    RegroupLine(l.text, FileText(ls[1..]), last);
    PieceIsLine(l.text, l.crlf);
    SplitLine(PieceOf(l), more);
    KeepHead(PieceOf(l), Split(more));
  }

  lemma LastLine(last: Bytes)
    requires Writable(last)
    ensures Lines(last) == if last != "" then [last] else []
  {
    SplitWhole(last);
    KeepHead(last, []);
    assert [last] + [] == [last] && Clean(last) == last;
  }

  /** The lines of a file are the nonblank ones that were written, without their
      ends, and a last one that has no end. */
  lemma {:induction false} LinesOfFile(ls: seq<Written>, last: Bytes)
    requires (forall l <- ls :: Writable(l.text)) && Writable(last)
    ensures Lines(FileText(ls) + last) == NonBlank(ls) + if last != "" then [last] else []
  {
    hide Lines, Writable;
    if ls == [] {
      assert FileText(ls) + last == last;
      LastLine(last);
    } else {
      assert ls[0] in ls;
      hide FileText;
      FirstWritten(ls, last);
      forall x | x in ls[1..] ensures Writable(x.text) {
        assert x in ls;
      }
      LinesOfFile(ls[1..], last);
    }
  }

  lemma PieceIsLine(text: Bytes, crlf: bool)
    requires Writable(text)
    ensures var piece := if crlf then text + "\r" else text;
            '\n' !in piece && Clean(piece) == text
  {
  }

  lemma RegroupLine(text: Bytes, more: Bytes, last: Bytes)
    ensures text + "\r\n" + more + last == text + "\r" + ("\n" + (more + last))
    ensures text + "\n" + more + last == text + ("\n" + (more + last))
  {
  }

  // ----- what it returns -----

  /** Cutting a text anywhere, only the first line after the cut is touched. */
  lemma CutLines(a: Bytes, b: Bytes)
    ensures var x, y, all := Split(a), Split(b), Lines(a + b);
            all == Keep(x[..|x| - 1]) + Keep([x[|x| - 1] + y[0]]) + Keep(y[1..])
            && Lines(b) == Keep([y[0]]) + Keep(y[1..])
  {
    var x, y := Split(a), Split(b);
    SplitConcat(a, b);
    KeepConcat(x[..|x| - 1] + [x[|x| - 1] + y[0]], y[1..]);
    KeepConcat(x[..|x| - 1], [x[|x| - 1] + y[0]]);
    assert y == [y[0]] + y[1..];
    KeepConcat([y[0]], y[1..]);
  }

  /** A line that is nonblank after the cut is nonblank before it. */
  lemma NonblankBefore(head: Bytes, piece: Bytes)
    requires Clean(piece) != ""
    ensures Clean(head + piece) != ""
  {
  }

  lemma DropFirst(p: seq<Bytes>, q: seq<Bytes>, r: seq<Bytes>, cut: seq<Bytes>)
    requires |cut| <= 1 && (cut != [] ==> q != [])
    ensures var all, lines := p + q + r, cut + r;
            var hand := if lines != [] then lines[1..] else lines;
            |hand| <= |all| && hand == all[|all| - |hand|..] && (lines != [] ==> |hand| < |all|)
  {
    var lines := cut + r;
    if cut != [] {
      assert lines[1..] == r;
    }
  }

  lemma LinesCount(s: Bytes)
    ensures |Lines(s)| == Newlines(s) + 1 - Blanks(Split(s))
  {
    KeepCounts(Split(s));
  }

  lemma CutHand(file: Bytes, pos: nat)
    requires 0 < pos <= |file|
    ensures var all, hand, lines := Lines(file), InHand(file, pos), Lines(file[pos..]);
            |hand| <= |all| && hand == all[|all| - |hand|..] && (lines != [] ==> |hand| < |all|)
  {
    hide Lines, Split, Keep, Newlines;
    var a, b := file[..pos], file[pos..];
    assert file == a + b;
    CutLines(a, b);
    var x, y := Split(a), Split(b);
    KeepOne(x[|x| - 1], y[0]);
    DropFirst(Keep(x[..|x| - 1]), Keep([x[|x| - 1] + y[0]]), Keep(y[1..]), Keep([y[0]]));
  }

  /** The lines in hand are the last nonblank lines of the file: all of them at
      offset 0, else as many as there are newlines beyond the blank pieces, and
      then not all of them. */
  lemma InHandIsSuffix(file: Bytes, pos: nat)
    requires pos <= |file|
    ensures var all, hand := Lines(file), InHand(file, pos);
            |hand| <= |all| && hand == all[|all| - |hand|..]
    ensures pos == 0 ==> InHand(file, pos) == Lines(file)
    ensures pos > 0 ==>
              |InHand(file, pos)| == Max(Newlines(file[pos..]) - Blanks(Split(file[pos..])), 0)
              && (InHand(file, pos) != [] ==> |InHand(file, pos)| < |Lines(file)|)
  {
    hide Lines, Split, Newlines, Blanks;
    if pos == 0 {
      assert file[pos..] == file;
    } else {
      LinesCount(file[pos..]);
      CutHand(file, pos);
    }
  }

  lemma KeepOne(head: Bytes, piece: Bytes)
    ensures |Keep([piece])| <= 1 && (Keep([piece]) != [] ==> Keep([head + piece]) != [])
  {
    if Clean(piece) != "" {
      NonblankBefore(head, piece);
    }
  }

  /** Whatever the step and the cap, the result is a contiguous end segment of
      the nonblank lines of the file, of at most `n` lines. */
  lemma TailIsSegment(file: Bytes, n: nat, step: nat, max: nat)
    requires step > 0
    ensures var all, got := Lines(file), Tail(file, n, step, max);
            |got| <= n && |got| <= |all| && got == LastK(all, |got|)
  {
    hide Lines, StopAt, InHand, LastK, Newlines, Split, Blanks;
    var pos := StopAt(file, n, step, max, |file|);
    InHandIsSuffix(file, pos);
    LastOfSuffix(InHand(file, pos), Lines(file), n);
  }

  lemma LastOfSuffix(hand: seq<Bytes>, all: seq<Bytes>, n: nat)
    requires |hand| <= |all| && hand == all[|all| - |hand|..]
    ensures var got := LastK(hand, n); |got| <= n && |got| <= |all| && got == LastK(all, |got|)
  {
  }

  /** It is exactly the last `min(n, total)` lines if and only if the loop read
      back to offset 0, or the newlines in hand outnumber the blank pieces by at
      least `n`, or the file has only blank lines. */
  lemma TailIsExactIff(file: Bytes, n: nat, step: nat, max: nat)
    requires step > 0
    ensures var pos := StopAt(file, n, step, max, |file|);
            Tail(file, n, step, max) == LastK(Lines(file), n)
            <==> pos == 0 || Newlines(file[pos..]) - Blanks(Split(file[pos..])) >= n || Lines(file) == [] || n == 0
  {
    hide Lines, StopAt, InHand, Newlines, Split, Blanks;
    InHandIsSuffix(file, StopAt(file, n, step, max, |file|));
  }

  /** So it is exact when the loop stopped on its newline count and the buffer
      holds at most one blank piece, such as the one after a final newline. */
  lemma TailIsExactOnCount(file: Bytes, n: nat, step: nat, max: nat)
    requires step > 0
    requires var b := file[StopAt(file, n, step, max, |file|)..]; Newlines(b) > n && Blanks(Split(b)) <= 1
    ensures Tail(file, n, step, max) == LastK(Lines(file), n)
  {
    hide Lines, StopAt, InHand, Newlines, Split, Blanks, Tail;
    TailIsExactIff(file, n, step, max);
  }

  lemma KeepHead(piece: Bytes, rest: seq<Bytes>)
    ensures Keep([piece] + rest) == (if Clean(piece) != "" then [Clean(piece)] else []) + Keep(rest)
  {
    assert ([piece] + rest)[1..] == rest;
  }

  // ----- two files that lose a line, whatever the step -----

  function Repeat(c: char, k: nat): Bytes { seq(k, _ => c) }

  lemma RepeatStep(c: char, k: nat)
    ensures Repeat(c, 0) == "" && (k > 0 ==> Repeat(c, k) == [c] + Repeat(c, k - 1))
  {
  }

  lemma NothingLeft()
    ensures Split("") == [""] && Keep([]) == [] && Newlines("") == 0
  {
  }

  /** Newlines alone hold no line. */
  lemma {:induction false} BlankText(k: nat)
    ensures Lines(Repeat('\n', k)) == [] && Newlines(Repeat('\n', k)) == k
  {
    hide Split, Keep, Newlines;
    RepeatStep('\n', k);
    NothingLeft();
    if k == 0 {
      KeepHead("", []);
      assert [""] + [] == [""];
    } else {
      BlankText(k - 1);
      var rest := Repeat('\n', k - 1);
      SplitHead('\n', rest);
      KeepHead("", Split(rest));
    }
  }

  /** A word before a newline is the first piece. */
  lemma {:induction false} WordPiece(c: char, k: nat, rest: Bytes)
    requires c != '\n'
    ensures Split(Repeat(c, k) + (['\n'] + rest)) == [Repeat(c, k)] + Split(rest)
  {
    hide Split, Newlines;
    RepeatStep(c, k);
    SplitHead('\n', rest);
    if k == 0 {
      assert "" + (['\n'] + rest) == ['\n'] + rest;
    } else {
      var tail := Repeat(c, k - 1) + (['\n'] + rest);
      WordPiece(c, k - 1, rest);
      assert Repeat(c, k) + (['\n'] + rest) == [c] + tail;
      SplitHead(c, tail);
    }
  }

  lemma WordIsLine(c: char, k: nat, rest: Bytes)
    requires c != '\n' && c != '\r' && k > 0
    ensures Lines(Repeat(c, k) + (['\n'] + rest)) == [Repeat(c, k)] + Lines(rest)
  {
    hide Split, Keep, Newlines;
    WordPiece(c, k, rest);
    KeepHead(Repeat(c, k), Split(rest));
  }

  /** One step back from the end of a file one byte longer than the step. */
  lemma OneStepBack(c: char, buffer: Bytes, n: nat, step: nat, max: nat)
    requires step == |buffer| > 0 && max > 0 && Newlines(buffer) > n
    ensures StopAt([c] + buffer, n, step, max, step + 1) == 1 && ([c] + buffer)[1..] == buffer
  {
    hide Newlines, StopAt;
    var file := [c] + buffer;
    assert file[1..] == buffer;
    StopStep(file, n, step, max, step + 1);
  }

  /** Blank lines at the end hide a line: the file is a letter and as many
      newlines as one step reads, 65536 in the source, and nothing is found. */
  lemma BlankLinesWitness(step: nat, max: nat)
    requires step >= 2 && max > 0
    ensures var file := "a" + Repeat('\n', step);
            Tail(file, 1, step, max) == [] && Lines(file) == ["a"]
  {
    hide Lines, Newlines, StopAt;
    var buffer := Repeat('\n', step);
    BlankText(step);
    OneStepBack('a', buffer, 1, step, max);
    RepeatStep('\n', step);
    BlankText(step - 1);
    assert "a" == Repeat('a', 1);
    WordIsLine('a', 1, Repeat('\n', step - 1));
  }

  /** So does a buffer that begins at a newline, with no blank line in the file:
      "b", newline, a word that fills the step, newline. */
  lemma CutAtNewlineWitness(step: nat, max: nat)
    requires step >= 3 && max > 0
    ensures var word := Repeat('c', step - 2);
            var file := "b" + (['\n'] + (word + ['\n']));
            Tail(file, 1, step, max) == [] && Lines(file) == ["b", word]
  {
    hide Lines, Newlines, StopAt, Repeat;
    var word := Repeat('c', step - 2);
    var line := word + (['\n'] + "");
    var buffer := ['\n'] + line;
    assert line == word + ['\n'] && |word| == step - 2 by { RepeatLength('c', step - 2); }
    NoLines();
    WordIsLine('c', step - 2, "");
    BlankFirst(line);
    WordEnds('c', step - 2);
    assert [word] + [] == [word];
    OneStepBack('b', buffer, 1, step, max);
    OneLetter('b');
    WordIsLine('b', 1, line);
  }

  lemma RepeatLength(c: char, k: nat)
    ensures |Repeat(c, k)| == k
  {
  }

  lemma OneLetter(c: char)
    ensures Repeat(c, 1) == [c]
  {
  }

  lemma NoLines()
    ensures Lines("") == []
  {
    BlankText(0);
    RepeatStep('\n', 0);
  }

  lemma BlankFirst(rest: Bytes)
    ensures Lines(['\n'] + rest) == Lines(rest) && Newlines(['\n'] + rest) == Newlines(rest) + 1
  {
    hide Split, Keep, Newlines;
    SplitHead('\n', rest);
    KeepHead("", Split(rest));
  }

  lemma WordEnds(c: char, k: nat)
    requires c != '\n'
    ensures Newlines(Repeat(c, k) + (['\n'] + "")) == 1
  {
    hide Split, Newlines;
    NothingLeft();
    WordPiece(c, k, "");
  }
}
