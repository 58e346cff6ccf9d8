/** `ThinkFilter`: drops `<think>...</think>` spans from a text that arrives in
    chunks, also when a tag is split between chunks. */
module ThinkFilter {
  import opened Common

  const OPEN: string := "<think>"
  const CLOSE: string := "</think>"

  // ----- searching -----

  predicate OccursAt(s: string, tag: string, i: nat) {
    i + |tag| <= |s| && s[i..i + |tag|] == tag
  }

  /** No occurrence starts before position `p`. */
  predicate FreeBefore(s: string, tag: string, p: nat) {
    forall i: nat | i < p :: !OccursAt(s, tag, i)
  }

  /** `str::find`: the first position of `tag`. */
  function Find(s: string, tag: string): (r: Option<nat>)
    ensures r.Some? ==> OccursAt(s, tag, r.value) && FreeBefore(s, tag, r.value)
    ensures r.Some? ==> r.value + |tag| <= |s|
    ensures r.None? ==> FreeBefore(s, tag, |s| + 1)
  {
    FindFrom(s, tag, 0)
  }

  function FindFrom(s: string, tag: string, k: nat): (r: Option<nat>)
    requires FreeBefore(s, tag, k) && k <= |s|
    ensures r.Some? ==> k <= r.value && OccursAt(s, tag, r.value) && FreeBefore(s, tag, r.value)
    ensures r.None? ==> FreeBefore(s, tag, |s| + 1)
    decreases |s| - k
  {
    if OccursAt(s, tag, k) then Some(k)
    else if k < |s| then FindFrom(s, tag, k + 1)
    else None
  }

  lemma FindIs(s: string, tag: string, p: nat)
    requires FreeBefore(s, tag, p)
    ensures OccursAt(s, tag, p) ==> Find(s, tag) == Some(p)
    ensures p > |s| ==> Find(s, tag).None?
  {
    hide Find, FindFrom;
  }

  predicate EndsInPrefix(s: string, tag: string, n: nat) {
    n <= |s| && n <= |tag| && s[|s| - n..] == tag[..n]
  }

  /** Length of the longest suffix of `s` that is a proper prefix of `tag`. */
  function PartialSuffix(s: string, tag: string): (n: nat)
    requires tag != []
    ensures n < |tag| && EndsInPrefix(s, tag, n)
    ensures forall k: nat | n < k < |tag| :: !EndsInPrefix(s, tag, k)
  {
    PartialSuffixFrom(s, tag, |tag| - 1)
  }

  function PartialSuffixFrom(s: string, tag: string, k: nat): (n: nat)
    requires k < |tag|
    ensures n <= k && EndsInPrefix(s, tag, n)
    ensures forall j: nat | n < j <= k :: !EndsInPrefix(s, tag, j)
  {
    if k == 0 || EndsInPrefix(s, tag, k) then k else PartialSuffixFrom(s, tag, k - 1)
  }

  // ----- the whole text at once -----

  /** Drop every span from an opening tag to the first closing tag after it,
      and an unclosed one; keep everything else in order. */
  function Visible(inside: bool, s: string): string
    decreases |s|
  {
    if inside then
      match Find(s, CLOSE)
      case Some(i) => Visible(false, s[i + |CLOSE|..])
      case None => ""
    else
      match Find(s, OPEN)
      case Some(i) => s[..i] + Visible(true, s[i + |OPEN|..])
      case None => s
  }

  // ----- what the buffer may safely give up -----

  /** With no occurrence of the tag in `s`, an occurrence in a longer text can
      only start in the held-back suffix. */
  lemma NoEarlyStart(s: string, more: string, tag: string)
    requires tag != [] && Find(s, tag).None?
    ensures FreeBefore(s + more, tag, |s| - PartialSuffix(s, tag))
  {
    hide Find, PartialSuffix;
    forall i: nat | i < |s| - PartialSuffix(s, tag)
      ensures !OccursAt(s + more, tag, i)
    {
      assert !OccursAt(s, tag, i);
      var n := |s| - i;
      if i + |tag| <= |s| {
        assert (s + more)[i..i + |tag|] == s[i..i + |tag|];
      } else if i + |tag| <= |s + more| {
        assert !EndsInPrefix(s, tag, n);
        assert s[i..] == (s + more)[i..i + |tag|][..n];
      }
    }
  }

  /** Searching after a prefix in which no occurrence starts. */
  lemma FindAfterCut(s: string, cut: nat, tag: string)
    requires cut <= |s| && FreeBefore(s, tag, cut)
    ensures Find(s, tag)
         == match Find(s[cut..], tag) case Some(p) => Some(cut + p) case None => None
  {
    hide Find;
    forall i: nat
      ensures OccursAt(s[cut..], tag, i) <==> OccursAt(s, tag, cut + i)
    {
      if cut + i + |tag| <= |s| {
        assert s[cut..][i..i + |tag|] == s[cut + i..cut + i + |tag|];
      }
    }
    var end := match Find(s[cut..], tag) case Some(p) => cut + p case None => |s| + 1;
    forall i: nat | i < end
      ensures !OccursAt(s, tag, i)
    {
      if i >= cut {
        assert !OccursAt(s[cut..], tag, i - cut);
      }
    }
    FindIs(s, tag, end);
  }

  /** The tag looked for, and the part of the text before it that is shown. */
  function TagOf(inside: bool): string { if inside then CLOSE else OPEN }

  function Shown(inside: bool, s: string): string { if inside then "" else s }

  /** One tag at a time: both cases of `Visible` in one equation. */
  lemma VisibleStep(inside: bool, s: string)
    ensures Visible(inside, s)
         == match Find(s, TagOf(inside))
            case Some(i) => Shown(inside, s[..i]) + Visible(!inside, s[i + |TagOf(inside)|..])
            case None => Shown(inside, s)
  {
    hide Find;
  }

  lemma ShownConcat(inside: bool, a: string, b: string, c: string)
    ensures Shown(inside, a + b) == Shown(inside, a) + Shown(inside, b)
    ensures Shown(inside, a) + (Shown(inside, b) + c) == Shown(inside, a + b) + c
  {
  }

  /** Giving up everything but the held-back suffix changes nothing, whatever
      text follows. */
  lemma CutKeepsMeaning(inside: bool, s: string, cut: nat, more: string)
    requires Find(s, TagOf(inside)).None? && cut == |s| - PartialSuffix(s, TagOf(inside))
    ensures Visible(inside, s + more) == Shown(inside, s[..cut]) + Visible(inside, s[cut..] + more)
  {
    hide Find, OccursAt, FreeBefore, PartialSuffix, Visible, TagOf, Shown;
    var tag := TagOf(inside);
    TagIsNotEmpty(inside);
    NoEarlyStart(s, more, tag);
    FindAfterCut(s + more, cut, tag);
    VisibleStep(inside, s + more);
    var rest := s[cut..] + more;
    VisibleStep(inside, rest);
    CutSlices(s, more, cut, 0);
    match Find(rest, tag) {
      case Some(p) =>
        CutSlices(s, more, cut, p);
        CutSlices(s, more, cut, p + |tag|);
        ShownConcat(inside, s[..cut], rest[..p], Visible(!inside, rest[p + |tag|..]));
      case None =>
        ShownConcat(inside, s[..cut], rest, "");
    }
  }

  lemma CutSlices(s: string, more: string, cut: nat, p: nat)
    requires cut <= |s| && p <= |s| - cut + |more|
    ensures var rest := s[cut..] + more;
            (s + more)[cut + p..] == rest[p..] && (s + more)[..cut + p] == s[..cut] + rest[..p]
            && s + more == s[..cut] + rest && rest[0..] == rest
  {
  }

  lemma TagIsNotEmpty(inside: bool)
    ensures TagOf(inside) != []
  {
  }

  /** A tag found in the buffer is found at the same place in a longer text. */
  lemma FoundStays(s: string, more: string, tag: string)
    requires Find(s, tag).Some?
    ensures Find(s + more, tag) == Find(s, tag)
  {
    hide Find;
    var p := Find(s, tag).value;
    assert (s + more)[p..p + |tag|] == s[p..p + |tag|];
    forall i: nat | i < p
      ensures !OccursAt(s + more, tag, i)
    {
      assert !OccursAt(s, tag, i);
      assert (s + more)[i..i + |tag|] == s[i..i + |tag|];
    }
    FindIs(s + more, tag, p);
  }

  // ----- one chunk, as a function -----

  /** The loop of `push` on a buffer: output, and what is left of the state. */
  function Drain(inside: bool, buf: string): (r: (string, bool, string))
    decreases |buf|
  {
    var tag := TagOf(inside);
    match Find(buf, tag)
    case Some(i) =>
      var (out, inside', buf') := Drain(!inside, buf[i + |tag|..]);
      (Shown(inside, buf[..i]) + out, inside', buf')
    case None =>
      var cut := |buf| - PartialSuffix(buf, tag);
      (Shown(inside, buf[..cut]), inside, buf[cut..])
  }

  lemma CutOf(a: string, b: string, i: nat, j: nat)
    requires i <= j <= |a|
    ensures (a + b)[..i] == a[..i] && (a + b)[j..] == a[j..] + b
  {
  }

  /** Whatever text follows, the buffer is worth the output of the loop plus
      what the state left behind is worth. */
  lemma {:induction false} DrainKeepsMeaning(inside: bool, buf: string, more: string)
    ensures var (out, inside', buf') := Drain(inside, buf);
            Visible(inside, buf + more) == out + Visible(inside', buf' + more)
    decreases |buf|
  {
    hide Find, OccursAt, FreeBefore, PartialSuffix, Visible, TagOf, Shown;
    var tag := TagOf(inside);
    TagIsNotEmpty(inside);
    match Find(buf, tag) {
      case Some(i) =>
        FoundStays(buf, more, tag);
        VisibleStep(inside, buf + more);
        var rest := buf[i + |tag|..];
        CutOf(buf, more, i, i + |tag|);
        DrainKeepsMeaning(!inside, rest, more);
      case None =>
        CutKeepsMeaning(inside, buf, |buf| - PartialSuffix(buf, tag), more);
    }
  }

  /** The loop stops with no whole tag left in the buffer, and with fewer
      characters than a tag has. */
  lemma {:induction false} DrainSettles(inside: bool, buf: string)
    ensures var (out, inside', buf') := Drain(inside, buf);
            Find(buf', TagOf(inside')).None? && |buf'| < |TagOf(inside')|
    decreases |buf|
  {
    hide Find, OccursAt, FreeBefore;
    var tag := TagOf(inside);
    match Find(buf, tag) {
      case Some(i) => DrainSettles(!inside, buf[i + |tag|..]);
      case None =>
        assert FreeBefore(buf, tag, |buf| - PartialSuffix(buf, tag)) by {
          NoEarlyStart(buf, "", tag);
          assert buf + "" == buf;
        }
        FindAfterCut(buf, |buf| - PartialSuffix(buf, tag), tag);
    }
  }

  lemma DrainStep(inside: bool, buf: string)
    ensures Drain(inside, buf)
         == match Find(buf, TagOf(inside))
            case Some(i) =>
              (var rest := Drain(!inside, buf[i + |TagOf(inside)|..]);
               (Shown(inside, buf[..i]) + rest.0, rest.1, rest.2))
            case None =>
              (var cut := |buf| - PartialSuffix(buf, TagOf(inside));
               (Shown(inside, buf[..cut]), inside, buf[cut..]))
  {
    hide Find, PartialSuffix;
  }

  // ----- all chunks -----

  /** Outputs of a list of chunks, one `push` each, and of `finish`. */
  function Feed(inside: bool, buf: string, chunks: seq<string>): string
    decreases |chunks|
  {
    if chunks == [] then Shown(inside, buf)
    else
      var (out, inside', buf') := Drain(inside, buf + chunks[0]);
      out + Feed(inside', buf', chunks[1..])
  }

  lemma FeedStep(inside: bool, buf: string, chunks: seq<string>, i: nat)
    requires i < |chunks|
    ensures var (out, inside', buf') := Drain(inside, buf + chunks[i]);
            Feed(inside, buf, chunks[i..]) == out + Feed(inside', buf', chunks[i + 1..])
  {
    hide Drain;
    assert chunks[i..][1..] == chunks[i + 1..];
  }

  lemma FeedEnd(inside: bool, buf: string, chunks: seq<string>)
    ensures Feed(inside, buf, chunks[|chunks|..]) == Shown(inside, buf)
  {
    assert chunks[|chunks|..] == [];
  }

  lemma Regroup(a: string, b: string, c: string)
    ensures a + (b + c) == (a + b) + c
  {
  }

  lemma WorthOfSettled(inside: bool, buf: string)
    requires Find(buf, TagOf(inside)).None?
    ensures Visible(inside, buf) == Shown(inside, buf)
  {
  }

  lemma {:induction false} FeedIsVisible(inside: bool, buf: string, chunks: seq<string>)
    requires Find(buf, TagOf(inside)).None?
    ensures Feed(inside, buf, chunks) == Visible(inside, buf + Flatten(chunks))
    decreases |chunks|
  {
    hide Find, Drain, Visible;
    if chunks == [] {
      WorthOfSettled(inside, buf);
      assert buf + Flatten(chunks) == buf;
    } else {
      var (out, inside', buf') := Drain(inside, buf + chunks[0]);
      DrainKeepsMeaning(inside, buf + chunks[0], Flatten(chunks[1..]));
      DrainSettles(inside, buf + chunks[0]);
      FeedIsVisible(inside', buf', chunks[1..]);
      assert buf + Flatten(chunks) == buf + chunks[0] + Flatten(chunks[1..]);
    }
  }

  /** However a text is cut into chunks, the filter shows the same. */
  lemma ChunkingDoesNotMatter(chunks: seq<string>)
    ensures Feed(false, "", chunks) == Visible(false, Flatten(chunks))
  {
    hide Visible;
    FeedIsVisible(false, "", chunks);
    assert "" + Flatten(chunks) == Flatten(chunks);
  }

  // ----- what `Visible` means, without the recursion of the filter -----

  /** A text without an opening tag is shown whole. */
  lemma PlainTextIsKept(s: string)
    requires Find(s, OPEN).None?
    ensures Visible(false, s) == s
  {
  }

  lemma OpeningTag(before: string, rest: string)
    requires Find(before + OPEN, OPEN) == Some(|before|)
    ensures Visible(false, before + OPEN + rest) == before + Visible(true, rest)
  {
    hide Find, OccursAt, FreeBefore, Visible;
    var s := before + OPEN + rest;
    FoundStays(before + OPEN, rest, OPEN);
    VisibleStep(false, s);
    assert s[|before| + |OPEN|..] == rest && s[..|before|] == before;
  }

  lemma ClosingTag(inner: string, after: string)
    requires Find(inner + CLOSE, CLOSE) == Some(|inner|)
    ensures Visible(true, inner + CLOSE + after) == Visible(false, after)
  {
    hide Find, OccursAt, FreeBefore, Visible;
    var s := inner + CLOSE + after;
    FoundStays(inner + CLOSE, after, CLOSE);
    VisibleStep(true, s);
    assert s[|inner| + |CLOSE|..] == after;
  }

  /** A closed span disappears: nothing of its inside is shown, everything
      around it is treated as if it had never been there. */
  lemma SpanIsDropped(before: string, inner: string, after: string)
    requires Find(before + OPEN, OPEN) == Some(|before|)
    requires Find(inner + CLOSE, CLOSE) == Some(|inner|)
    ensures Visible(false, before + OPEN + (inner + CLOSE + after)) == before + Visible(false, after)
  {
    hide *;
    OpeningTag(before, inner + CLOSE + after);
    ClosingTag(inner, after);
  }

  /** As written: around text without `<`, the tags and what is between them go. */
  lemma SpanText(before: string, inner: string, after: string)
    requires forall c <- before + inner + after :: c != '<'
    ensures Visible(false, before + "<think>" + (inner + "</think>" + after)) == before + after
    ensures Visible(false, before + "<think>" + inner) == before
  {
    forall c | c in before || c in inner || c in after ensures c in before + inner + after { }
    TagFirst(before, OPEN);
    TagFirst(inner, CLOSE);
    NoTag(inner, CLOSE);
    NoTag(after, OPEN);
    SpanIsDropped(before, inner, after);
    UnclosedSpanIsDropped(before, inner);
    PlainTextIsKept(after);
  }

  lemma TagHead(s: string, tag: string, i: nat)
    requires tag != []
    ensures OccursAt(s, tag, i) ==> i < |s| && s[i] == tag[0]
  {
    if OccursAt(s, tag, i) {
      assert s[i..i + |tag|][0] == s[i];
    }
  }

  lemma TagFirst(s: string, tag: string)
    requires tag != [] && tag[0] == '<' && forall c <- s :: c != '<'
    ensures Find(s + tag, tag) == Some(|s|)
  {
    assert OccursAt(s + tag, tag, |s|);
    forall i: nat | i < |s| ensures !OccursAt(s + tag, tag, i) {
      TagHead(s + tag, tag, i);
      assert s[i] in s && (s + tag)[i] == s[i];
    }
  }

  lemma NoTag(s: string, tag: string)
    requires tag != [] && tag[0] == '<' && forall c <- s :: c != '<'
    ensures Find(s, tag).None?
  {
    forall i: nat ensures !OccursAt(s, tag, i) {
      TagHead(s, tag, i);
      assert i < |s| ==> s[i] in s;
    }
  }

  /** An unclosed span drops the rest of the text. */
  lemma UnclosedSpanIsDropped(before: string, inner: string)
    requires Find(before + OPEN, OPEN) == Some(|before|) && Find(inner, CLOSE).None?
    ensures Visible(false, before + OPEN + inner) == before
  {
    hide Find;
    OpeningTag(before, inner);
    assert Visible(true, inner) == "";
  }

  // ----- the filter -----

  class Filter {
    var inside: bool
    var buf: string

    constructor ()
      ensures !inside && buf == ""
    {
      inside, buf := false, "";
    }

    method Push(s: string) returns (out: string)
      modifies this
      ensures (out, inside, buf) == Drain(old(inside), old(buf) + s)
    {
      hide Find, OccursAt, FreeBefore, PartialSuffix, Drain;
      buf := buf + s;
      out := "";
      ghost var goal := Drain(inside, buf);
      assert goal.0 == out + goal.0;
      while true
        invariant goal.0 == out + Drain(inside, buf).0
        invariant goal.1 == Drain(inside, buf).1 && goal.2 == Drain(inside, buf).2
        decreases |buf|
      {
        DrainStep(inside, buf);
        if inside {
          match Find(buf, CLOSE) {
            case Some(i) =>
              assert Drain(true, buf).0 == Drain(false, buf[i + |CLOSE|..]).0;
              buf := buf[i + |CLOSE|..];
              inside := false;
            case None =>
              var keep := PartialSuffix(buf, CLOSE);
              assert goal.0 == out;
              buf := buf[|buf| - keep..];
              return;
          }
        } else {
          match Find(buf, OPEN) {
            case Some(i) =>
              assert goal.0 == (out + buf[..i]) + Drain(true, buf[i + |OPEN|..]).0;
              out := out + buf[..i];
              buf := buf[i + |OPEN|..];
              inside := true;
            case None =>
              var keep := PartialSuffix(buf, OPEN);
              var cut := |buf| - keep;
              out := out + buf[..cut];
              buf := buf[cut..];
              return;
          }
        }
      }
    }

    /** The held-back text is shown outside a span and dropped inside one. */
    method Finish() returns (out: string)
      modifies this
      ensures out == Shown(old(inside), old(buf))
      ensures buf == "" && inside == old(inside)
    {
      if inside {
        buf := "";
        return "";
      }
      out := buf;
      buf := "";
    }
  }

  /** The streaming loop of the caller: one `push` per chunk, then `finish`. */
  method FilterStream(chunks: seq<string>) returns (out: string)
    ensures out == Visible(false, Flatten(chunks))
  {
    hide Feed, Drain, Visible, Shown;
    var filter := new Filter();
    out := "";
    assert chunks[0..] == chunks && "" + Feed(false, "", chunks) == Feed(false, "", chunks);
    for i := 0 to |chunks|
      invariant Feed(false, "", chunks) == out + Feed(filter.inside, filter.buf, chunks[i..])
      invariant fresh(filter)
    {
      FeedStep(filter.inside, filter.buf, chunks, i);
      var visible := filter.Push(chunks[i]);
      Regroup(out, visible, Feed(filter.inside, filter.buf, chunks[i + 1..]));
      out := out + visible;
    }
    FeedEnd(filter.inside, filter.buf, chunks);
    var tail := filter.Finish();
    out := out + tail;
    ChunkingDoesNotMatter(chunks);
  }
}
