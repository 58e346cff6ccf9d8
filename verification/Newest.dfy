/** "Newest matches" search: the newest `limit` of each source, merged by a
    stable sort and cut again. */
module Newest {
  import opened Common

  /** Something found at a time; sorting looks at the time only. */
  datatype Hit<T> = Hit(ts: int, item: T)

  // ----- stable sort by time -----

  predicate Sorted<T>(s: seq<Hit<T>>) { forall i, j | 0 <= i < j < |s| :: s[i].ts <= s[j].ts }

  /** The hits at one time, in order. */
  function At<T>(s: seq<Hit<T>>, ts: int): seq<Hit<T>> {
    if s == [] then [] else (if s[0].ts == ts then [s[0]] else []) + At(s[1..], ts)
  }

  /** Put a hit that came first in front of the hits at its time. */
  function Insert<T>(x: Hit<T>, s: seq<Hit<T>>): (r: seq<Hit<T>>)
    ensures |r| == |s| + 1
  {
    if s == [] || x.ts <= s[0].ts then [x] + s else [s[0]] + Insert(x, s[1..])
  }

  /** `sort_by_key`, which keeps the order of equal times. */
  function Sort<T>(s: seq<Hit<T>>): (r: seq<Hit<T>>)
    ensures |r| == |s|
  {
    if s == [] then [] else Insert(s[0], Sort(s[1..]))
  }

  /** Inserting splits the sequence into strictly earlier hits and the rest. */
  lemma {:induction false} InsertSplits<T>(x: Hit<T>, s: seq<Hit<T>>) returns (u: seq<Hit<T>>, v: seq<Hit<T>>)
    ensures s == u + v && Insert(x, s) == u + [x] + v
    ensures (forall i | 0 <= i < |u| :: u[i].ts < x.ts) && (v != [] ==> x.ts <= v[0].ts)
  {
    if s == [] || x.ts <= s[0].ts {
      u, v := [], s;
    } else {
      u, v := InsertSplits(x, s[1..]);
      u := [s[0]] + u;
    }
  }

  /** A hit not later than what follows is inserted into the front part. */
  lemma {:induction false} InsertFront<T>(y: Hit<T>, u: seq<Hit<T>>, w: seq<Hit<T>>)
    requires w != [] ==> y.ts <= w[0].ts
    ensures Insert(y, u + w) == Insert(y, u) + w
  {
    if u == [] {
      assert u + w == w;
    } else {
      assert (u + w)[1..] == u[1..] + w;
      InsertFront(y, u[1..], w);
    }
  }

  /** A hit later than the whole front part is inserted behind it. */
  lemma {:induction false} InsertBack<T>(y: Hit<T>, u: seq<Hit<T>>, w: seq<Hit<T>>)
    requires forall i | 0 <= i < |u| :: u[i].ts < y.ts
    ensures Insert(y, u + w) == u + Insert(y, w)
  {
    if u == [] {
      assert u + w == w;
    } else {
      assert (u + w)[1..] == u[1..] + w;
      InsertBack(y, u[1..], w);
    }
  }

  lemma InsertSorted<T>(x: Hit<T>, s: seq<Hit<T>>)
    requires Sorted(s)
    ensures Sorted(Insert(x, s))
  {
    hide Insert;
    var u, v := InsertSplits(x, s);
    assert forall i | 0 <= i < |v| :: v[i] == s[|u| + i];
    assert forall i | 0 <= i < |u| :: u[i] == s[i];
  }

  lemma {:induction false} SortSorted<T>(s: seq<Hit<T>>)
    ensures Sorted(Sort(s))
  {
    if s != [] {
      SortSorted(s[1..]);
      InsertSorted(s[0], Sort(s[1..]));
    }
  }

  lemma AtCons<T>(x: Hit<T>, s: seq<Hit<T>>, ts: int)
    ensures At([x] + s, ts) == (if x.ts == ts then [x] else []) + At(s, ts)
  {
    assert ([x] + s)[1..] == s;
  }

  lemma {:induction false} AtConcat<T>(a: seq<Hit<T>>, b: seq<Hit<T>>, ts: int)
    ensures At(a + b, ts) == At(a, ts) + At(b, ts)
  {
    hide At;
    if a == [] {
      assert a + b == b;
      NothingAt<T>(ts);
      assert [] + At(b, ts) == At(b, ts);
    } else {
      var x, rest := a[0], a[1..];
      assert a == [x] + rest && a + b == [x] + (rest + b);
      AtConcat(rest, b, ts);
      AtCons(x, rest, ts);
      AtCons(x, rest + b, ts);
    }
  }

  lemma NothingAt<T>(ts: int)
    ensures At<T>([], ts) == []
  {
  }

  lemma {:induction false} InsertAt<T>(x: Hit<T>, s: seq<Hit<T>>, ts: int)
    ensures At(Insert(x, s), ts) == At([x] + s, ts)
  {
    hide At;
    if !(s == [] || x.ts <= s[0].ts) {
      var y, rest := s[0], s[1..];
      InsertAt(x, rest, ts);
      assert s == [y] + rest;
      AtCons(y, Insert(x, rest), ts);
      AtCons(x, rest, ts);
      AtCons(x, s, ts);
      AtCons(y, rest, ts);
      assert [] + At(rest, ts) == At(rest, ts);
    }
  }

  /** Sorting is stable: hits at one time keep their order. */
  lemma {:induction false} SortStable<T>(s: seq<Hit<T>>, ts: int)
    ensures At(Sort(s), ts) == At(s, ts)
  {
    if s != [] {
      SortStable(s[1..], ts);
      InsertAt(s[0], Sort(s[1..]), ts);
      AtConcat([s[0]], Sort(s[1..]), ts);
      AtConcat([s[0]], s[1..], ts);
      assert s == [s[0]] + s[1..];
    }
  }

  lemma {:induction false} AtHead<T>(s: seq<Hit<T>>, i: nat)
    requires i < |s|
    ensures At(s, s[i].ts) != [] && At(s, s[i].ts)[0].ts == s[i].ts
    ensures At(s, s[i].ts)[0] in s
  {
    if s[0].ts != s[i].ts {
      AtHead(s[1..], i - 1);
      assert At(s, s[i].ts) == At(s[1..], s[i].ts);
    }
  }

  /** Sorted and stable leaves no choice: there is one such order. */
  lemma {:induction false} SortedStableUnique<T>(a: seq<Hit<T>>, b: seq<Hit<T>>)
    requires Sorted(a) && Sorted(b) && forall ts :: At(a, ts) == At(b, ts)
    ensures a == b
  {
    BothEmpty(a, b);
    if a != [] {
      HeadsAgree(a, b);
      forall ts
        ensures At(a[1..], ts) == At(b[1..], ts)
      {
        AtTail(a, b, ts);
      }
      SortedStableUnique(a[1..], b[1..]);
      assert a == [a[0]] + a[1..] && b == [b[0]] + b[1..];
    }
  }

  lemma BothEmpty<T>(a: seq<Hit<T>>, b: seq<Hit<T>>)
    requires forall ts :: At(a, ts) == At(b, ts)
    ensures a == [] <==> b == []
  {
    if a != [] { AtHead(a, 0); }
    if b != [] { AtHead(b, 0); }
  }

  lemma AtTail<T>(a: seq<Hit<T>>, b: seq<Hit<T>>, ts: int)
    requires a != [] && b != [] && a[0] == b[0] && At(a, ts) == At(b, ts)
    ensures At(a[1..], ts) == At(b[1..], ts)
  {
    var head := if a[0].ts == ts then [a[0]] else [];
    assert At(a[1..], ts) == At(a, ts)[|head|..] && At(b[1..], ts) == At(b, ts)[|head|..];
  }

  lemma HeadsAgree<T>(a: seq<Hit<T>>, b: seq<Hit<T>>)
    requires Sorted(a) && Sorted(b) && a != [] && b != [] && forall ts :: At(a, ts) == At(b, ts)
    ensures a[0] == b[0]
  {
    NotBeforeHead(a, b);
    NotBeforeHead(b, a);
    assert At(a, a[0].ts)[0] == a[0] && At(b, b[0].ts)[0] == b[0];
  }

  lemma NotBeforeHead<T>(a: seq<Hit<T>>, b: seq<Hit<T>>)
    requires Sorted(b) && a != [] && b != [] && At(a, a[0].ts) == At(b, a[0].ts)
    ensures b[0].ts <= a[0].ts
  {
    var x := At(b, a[0].ts)[0];
    AtHead(a, 0);
    AtIn(b, a[0].ts);
    assert x in b && x.ts == a[0].ts;
  }

  lemma {:induction false} AtIn<T>(s: seq<Hit<T>>, ts: int)
    ensures forall x | x in At(s, ts) :: x in s && x.ts == ts
  {
    if s != [] {
      AtIn(s[1..], ts);
    }
  }

  lemma {:induction false} SortPermutes<T>(s: seq<Hit<T>>)
    ensures multiset(Sort(s)) == multiset(s)
  {
    if s != [] {
      var u, v := InsertSplits(s[0], Sort(s[1..]));
      SortPermutes(s[1..]);
      assert s == [s[0]] + s[1..];
      MoveToFront(u, s[0], v);
    }
  }

  lemma MoveToFront<T>(u: seq<Hit<T>>, x: Hit<T>, v: seq<Hit<T>>)
    ensures multiset(u + [x] + v) == multiset{x} + multiset(u + v)
  {
  }

  // ----- dropping a hit that cannot be among the newest -----

  function CountFrom<T>(s: seq<Hit<T>>, ts: int): nat {
    if s == [] then 0 else (if s[0].ts >= ts then 1 else 0) + CountFrom(s[1..], ts)
  }

  lemma {:induction false} CountConcat<T>(a: seq<Hit<T>>, b: seq<Hit<T>>, ts: int)
    ensures CountFrom(a + b, ts) == CountFrom(a, ts) + CountFrom(b, ts)
  {
    if a == [] {
      assert a + b == b;
    } else {
      assert (a + b)[1..] == a[1..] + b;
      CountConcat(a[1..], b, ts);
    }
  }

  lemma {:induction false} CountSorted<T>(s: seq<Hit<T>>, ts: int)
    ensures CountFrom(Sort(s), ts) == CountFrom(s, ts)
  {
    if s != [] {
      var u, v := InsertSplits(s[0], Sort(s[1..]));
      CountSorted(s[1..], ts);
      CountConcat(u + [s[0]], v, ts);
      CountConcat(u, [s[0]], ts);
      CountConcat(u, v, ts);
    }
  }

  lemma {:induction false} CountAtMost<T>(s: seq<Hit<T>>, ts: int)
    ensures CountFrom(s, ts) <= |s|
  {
    if s != [] {
      CountAtMost(s[1..], ts);
    }
  }

  lemma {:induction false} CountNone<T>(s: seq<Hit<T>>, ts: int)
    requires forall i | 0 <= i < |s| :: s[i].ts < ts
    ensures CountFrom(s, ts) == 0
  {
    if s != [] {
      CountNone(s[1..], ts);
    }
  }

  lemma {:induction false} CountAll<T>(s: seq<Hit<T>>, ts: int)
    requires forall i | 0 <= i < |s| :: s[i].ts >= ts
    ensures CountFrom(s, ts) == |s|
  {
    if s != [] {
      CountAll(s[1..], ts);
    }
  }

  lemma LastOfBack<T>(w: seq<Hit<T>>, v: seq<Hit<T>>, k: nat)
    requires |v| >= k
    ensures LastK(w + v, k) == v[|v| - k..]
  {
  }

  lemma SameLast<T>(u: seq<Hit<T>>, x: Hit<T>, v: seq<Hit<T>>, k: nat)
    requires |v| >= k
    ensures LastK(u + [x] + v, k) == LastK(u + v, k)
  {
    hide LastK;
    LastOfBack(u + [x], v, k);
    LastOfBack(u, v, k);
  }

  /** Inserting another hit keeps an extra one as far from the end, or one place
      further when the other is later. */
  lemma InsertKeepsExtra<T>(y: Hit<T>, u: seq<Hit<T>>, x: Hit<T>, v: seq<Hit<T>>)
    returns (u': seq<Hit<T>>, v': seq<Hit<T>>)
    requires Sorted(u + [x] + v)
    ensures Insert(y, u + [x] + v) == u' + [x] + v' && Insert(y, u + v) == u' + v'
    ensures |v'| == |v| + if y.ts > x.ts then 1 else 0
  {
    hide Insert;
    var s := u + [x] + v;
    assert s[|u|] == x && forall i | 0 <= i < |u| :: s[i] == u[i];
    if y.ts <= x.ts {
      if v != [] { assert s[|u| + 1] == v[0]; }
      InsertFront(y, u, [x] + v);
      InsertFront(y, u, v);
      u', v' := Insert(y, u), v;
      assert s == u + ([x] + v) && u' + [x] + v == u' + ([x] + v);
    } else {
      assert s == u + [x] + v;
      InsertBack(y, u + [x], v);
      InsertBack(y, u, v);
      u', v' := u, Insert(y, v);
    }
  }

  /** A hit between `a` and `b` has exactly so many behind it in the sorted list:
      the later ones of `a` and those of `b` that are not earlier. Dropping it
      changes nothing else. */
  lemma {:induction false} DropShows<T>(a: seq<Hit<T>>, x: Hit<T>, b: seq<Hit<T>>)
    returns (u: seq<Hit<T>>, v: seq<Hit<T>>)
    ensures Sort(a + [x] + b) == u + [x] + v && Sort(a + b) == u + v
    ensures |v| == CountFrom(a, x.ts + 1) + CountFrom(b, x.ts)
  {
    hide Sort, CountFrom;
    if a == [] {
      u, v := DropFirstShows(x, b);
      assert a + [x] + b == [x] + b && a + b == b;
      NothingCounted<T>(x.ts + 1);
    } else {
      var y, rest := a[0], a[1..];
      u, v := DropShows(rest, x, b);
      assert a + [x] + b == [y] + (rest + [x] + b) && a + b == [y] + (rest + b) && a == [y] + rest;
      SortSorted(rest + [x] + b);
      SortCons(y, rest + [x] + b);
      SortCons(y, rest + b);
      CountCons(y, rest, x.ts + 1);
      u, v := InsertKeepsExtra(y, u, x, v);
    }
  }

  lemma DropFirstShows<T>(x: Hit<T>, b: seq<Hit<T>>) returns (u: seq<Hit<T>>, v: seq<Hit<T>>)
    ensures Sort([x] + b) == u + [x] + v && Sort(b) == u + v && |v| == CountFrom(b, x.ts)
  {
    hide Sort, CountFrom;
    SortCons(x, b);
    u, v := InsertSplits(x, Sort(b));
    CountSorted(b, x.ts);
    CountConcat(u, v, x.ts);
    CountNone(u, x.ts);
    SortSorted(b);
    NotEarlier(x, u, v);
    CountAll(v, x.ts);
  }

  lemma SortCons<T>(x: Hit<T>, s: seq<Hit<T>>)
    ensures Sort([x] + s) == Insert(x, Sort(s))
  {
    assert ([x] + s)[1..] == s;
  }

  lemma CountCons<T>(x: Hit<T>, s: seq<Hit<T>>, ts: int)
    ensures CountFrom([x] + s, ts) == (if x.ts >= ts then 1 else 0) + CountFrom(s, ts)
  {
    assert ([x] + s)[1..] == s;
  }

  lemma NothingCounted<T>(ts: int)
    ensures CountFrom<T>([], ts) == 0
  {
  }

  lemma NotEarlier<T>(x: Hit<T>, u: seq<Hit<T>>, v: seq<Hit<T>>)
    requires Sorted(u + v) && (v != [] ==> x.ts <= v[0].ts)
    ensures forall i | 0 <= i < |v| :: v[i].ts >= x.ts
  {
    forall i | 0 <= i < |v| ensures v[i].ts >= x.ts {
      assert (u + v)[|u|] == v[0] && (u + v)[|u| + i] == v[i];
    }
  }

  // ----- the newest of each source -----

  /** No hit that is cut off is newer than one that is kept. */
  predicate CutIsOld<T>(s: seq<Hit<T>>, k: nat) {
    forall i, j | 0 <= i < |s| - k <= j < |s| :: s[i].ts <= s[j].ts
  }

  lemma SortedCutsOld<T>(s: seq<Hit<T>>, k: nat)
    requires Sorted(s)
    ensures CutIsOld(s, k)
  {
  }

  /** Cutting one source to its newest `k` does not change the newest `k` of
      the whole, whatever stands before and after it. */
  lemma {:induction false} CutOneSource<T>(a: seq<Hit<T>>, s: seq<Hit<T>>, b: seq<Hit<T>>, k: nat)
    requires CutIsOld(s, k)
    ensures LastK(Sort(a + LastK(s, k) + b), k) == LastK(Sort(a + s + b), k)
    decreases |s|
  {
    hide Sort, CutIsOld, LastK;
    if |s| <= k {
      AllKept(s, k);
    } else {
      var x, rest := s[0], s[1..];
      DropOldest(s, k);
      CutOneSource(a, rest, b, k);
      EnoughLater(s, b, k);
      var u, v := DropShows(a, x, rest + b);
      assert a + s + b == a + [x] + (rest + b) && a + rest + b == a + (rest + b);
      SameLast(u, x, v, k);
    }
  }

  lemma AllKept<T>(s: seq<Hit<T>>, k: nat)
    requires |s| <= k
    ensures LastK(s, k) == s
  {
  }

  lemma DropOldest<T>(s: seq<Hit<T>>, k: nat)
    requires |s| > k && CutIsOld(s, k)
    ensures CutIsOld(s[1..], k) && LastK(s[1..], k) == LastK(s, k) && s == [s[0]] + s[1..]
  {
    assert forall i | 0 <= i < |s[1..]| :: s[1..][i] == s[i + 1];
  }

  lemma EnoughLater<T>(s: seq<Hit<T>>, b: seq<Hit<T>>, k: nat)
    requires |s| > k && CutIsOld(s, k)
    ensures CountFrom(s[1..] + b, s[0].ts) >= k
  {
    var kept := s[|s| - k..];
    assert s[1..] == s[1..|s| - k] + kept;
    CountConcat(s[1..], b, s[0].ts);
    CountConcat(s[1..|s| - k], kept, s[0].ts);
    assert forall j | 0 <= j < k :: kept[j] == s[|s| - k + j];
    CountAll(kept, s[0].ts);
  }

  function CutAll<T>(sources: seq<seq<Hit<T>>>, k: nat): seq<seq<Hit<T>>> {
    if sources == [] then [] else [LastK(sources[0], k)] + CutAll(sources[1..], k)
  }

  lemma FlattenCut<T>(sources: seq<seq<Hit<T>>>, k: nat)
    ensures Flatten(CutAll(sources, k))
         == if sources == [] then [] else LastK(sources[0], k) + Flatten(CutAll(sources[1..], k))
    ensures Flatten(sources) == if sources == [] then [] else sources[0] + Flatten(sources[1..])
  {
    hide LastK;
    if sources != [] {
      assert CutAll(sources, k)[1..] == CutAll(sources[1..], k);
    }
  }

  /** For one source the condition is exact. */
  lemma OneSourceIff<T>(s: seq<Hit<T>>, k: nat)
    ensures LastK(Sort(LastK(s, k)), k) == LastK(Sort(s), k) <==> CutIsOld(s, k)
  {
    hide Sort, LastK, CutIsOld;
    NothingCutIsOld(s, k);
    if CutIsOld(s, k) {
      CutOneSource([], s, [], k);
      assert [] + LastK(s, k) + [] == LastK(s, k) && [] + s + [] == s;
    } else if LastK(Sort(LastK(s, k)), k) == LastK(Sort(s), k) {
      SameNewestCutsOld(s, k);
    }
  }

  lemma NothingCutIsOld<T>(s: seq<Hit<T>>, k: nat)
    ensures |s| <= k ==> CutIsOld(s, k)
  {
  }

  ghost predicate SameHits<T>(a: seq<Hit<T>>, b: seq<Hit<T>>) { multiset(a) == multiset(b) }

  lemma SameNewestCutsOld<T>(s: seq<Hit<T>>, k: nat)
    requires |s| > k && LastK(Sort(LastK(s, k)), k) == LastK(Sort(s), k)
    ensures CutIsOld(s, k)
  {
    hide Sort, CutIsOld;
    var n, t := |s| - k, Sort(s);
    SplitInTwo(s, n);
    SplitInTwo(t, n);
    PartsInOrder(s[..n], s[n..], t[..n], t[n..]);
    CutsByParts(s, k);
  }

  lemma SplitInTwo<T>(s: seq<Hit<T>>, n: nat)
    requires n <= |s|
    ensures s == s[..n] + s[n..]
  {
  }

  lemma PartsInOrder<T>(cut: seq<Hit<T>>, kept: seq<Hit<T>>, u: seq<Hit<T>>, v: seq<Hit<T>>)
    requires Sort(cut + kept) == u + v && v == Sort(kept)
    ensures forall x, y | x in cut && y in kept :: x.ts <= y.ts
  {
    hide Sort, Sorted, SameHits;
    SortPermutesHits(cut + kept);
    SortPermutesHits(kept);
    SortSorted(cut + kept);
    CancelBack(u, v, cut, kept);
    FrontNotLater(u, v, cut, kept);
  }

  lemma SortPermutesHits<T>(s: seq<Hit<T>>)
    ensures SameHits(Sort(s), s)
  {
    SortPermutes(s);
  }

  lemma CancelBack<T>(a: seq<Hit<T>>, b: seq<Hit<T>>, c: seq<Hit<T>>, d: seq<Hit<T>>)
    requires SameHits(a + b, c + d) && SameHits(b, d)
    ensures SameHits(a, c)
  {
    assert multiset(a + b) - multiset(b) == multiset(a);
    assert multiset(c + d) - multiset(d) == multiset(c);
  }

  lemma CutsByParts<T>(s: seq<Hit<T>>, k: nat)
    requires |s| > k && forall x, y | x in s[..|s| - k] && y in s[|s| - k..] :: x.ts <= y.ts
    ensures CutIsOld(s, k)
  {
    var n := |s| - k;
    forall i, j | 0 <= i < n <= j < |s|
      ensures s[i].ts <= s[j].ts
    {
      assert s[..n][i] == s[i] && s[n..][j - n] == s[j];
    }
  }

  /** In a sorted sequence nothing of the front is later than the back, whatever
      the order within the two. */
  lemma FrontNotLater<T>(u: seq<Hit<T>>, v: seq<Hit<T>>, front: seq<Hit<T>>, back: seq<Hit<T>>)
    requires Sorted(u + v) && SameHits(u, front) && SameHits(v, back)
    ensures forall x, y | x in front && y in back :: x.ts <= y.ts
  {
    forall x, y | x in front && y in back
      ensures x.ts <= y.ts
    {
      assert x in multiset(front) && y in multiset(back);
      NotLater(u, v, x, y);
    }
  }

  lemma NotLater<T>(u: seq<Hit<T>>, v: seq<Hit<T>>, x: Hit<T>, y: Hit<T>)
    requires Sorted(u + v) && x in u && y in v
    ensures x.ts <= y.ts
  {
    var i :| 0 <= i < |u| && u[i] == x;
    var j :| 0 <= j < |v| && v[j] == y;
    assert (u + v)[i] == x && (u + v)[|u| + j] == y;
  }

  /** A source out of time order can lose a match that is among the newest: the
      kept one is the last in file order, not the latest. */
  lemma OutOfOrderWitness() returns (s: seq<Hit<Bytes>>)
    ensures LastK(Sort(LastK(s, 1)), 1) != LastK(Sort(s), 1)
  {
    s := [Hit(2, "late"), Hit(1, "early")];
    OneSourceIff(s, 1);
    assert s[0].ts > s[1].ts;
  }

  // ----- several sources -----

  /** Hits behind the one at `g` in time order: later ones, and equal ones that
      stand after it. */
  function Behind<T>(all: seq<Hit<T>>, g: nat): nat
    requires g < |all|
  {
    CountFrom(all[..g], all[g].ts + 1) + CountFrom(all[g + 1..], all[g].ts)
  }

  /** The place `g` of the concatenated sources is among the last `k` of its own. */
  predicate KeptPlace<T>(sources: seq<seq<Hit<T>>>, k: nat, g: int) {
    sources != [] &&
    if g < |sources[0]| then g >= |sources[0]| - k else KeptPlace(sources[1..], k, g - |sources[0]|)
  }

  /** What a caller could check: every hit that is cut off from its source has at
      least `k` hits behind it. */
  predicate CutsAreBehind<T>(sources: seq<seq<Hit<T>>>, k: nat) {
    forall g | 0 <= g < |Flatten(sources)| && !KeptPlace(sources, k, g) :: Behind(Flatten(sources), g) >= k
  }

  /** Each hit with its place, so that equal hits are told apart. */
  function Place<T>(s: seq<Hit<T>>, from: int): seq<Hit<(int, T)>> {
    seq(|s|, i requires 0 <= i < |s| => Hit(s[i].ts, (from + i, s[i].item)))
  }

  function PlaceAll<T>(sources: seq<seq<Hit<T>>>, from: int): seq<seq<Hit<(int, T)>>> {
    if sources == [] then [] else [Place(sources[0], from)] + PlaceAll(sources[1..], from + |sources[0]|)
  }

  /** The hits without their places. */
  function Bare<T>(s: seq<Hit<(int, T)>>): seq<Hit<T>> {
    seq(|s|, i requires 0 <= i < |s| => Hit(s[i].ts, s[i].item.1))
  }

  lemma {:induction false} PlaceFlat<T>(sources: seq<seq<Hit<T>>>, from: int)
    ensures Flatten(PlaceAll(sources, from)) == Place(Flatten(sources), from)
    decreases |sources|
  {
    if sources != [] {
      PlaceFlat(sources[1..], from + |sources[0]|);
      assert PlaceAll(sources, from)[1..] == PlaceAll(sources[1..], from + |sources[0]|);
      PlaceConcat(sources[0], Flatten(sources[1..]), from);
    }
  }

  lemma PlaceConcat<T>(a: seq<Hit<T>>, b: seq<Hit<T>>, from: int)
    ensures Place(a + b, from) == Place(a, from) + Place(b, from + |a|)
  {
  }

  lemma BarePlace<T>(s: seq<Hit<T>>, from: int)
    ensures Bare(Place(s, from)) == s
  {
  }

  lemma BareConcat<T>(a: seq<Hit<(int, T)>>, b: seq<Hit<(int, T)>>)
    ensures Bare(a + b) == Bare(a) + Bare(b)
  {
  }

  lemma {:induction false} BareInsert<T>(x: Hit<(int, T)>, s: seq<Hit<(int, T)>>)
    ensures Bare(Insert(x, s)) == Insert(Hit(x.ts, x.item.1), Bare(s))
  {
    assert Bare([x]) == [Hit(x.ts, x.item.1)];
    if s == [] || x.ts <= s[0].ts {
      BareConcat([x], s);
    } else {
      BareInsert(x, s[1..]);
      BareConcat([s[0]], Insert(x, s[1..]));
      assert Bare([s[0]]) == [Bare(s)[0]] && Bare(s)[1..] == Bare(s[1..]);
    }
  }

  /** Places do not matter to the sort. */
  lemma {:induction false} BareSort<T>(s: seq<Hit<(int, T)>>)
    ensures Bare(Sort(s)) == Sort(Bare(s))
  {
    if s != [] {
      BareSort(s[1..]);
      BareInsert(s[0], Sort(s[1..]));
      assert Bare(s)[1..] == Bare(s[1..]);
    }
  }

  lemma BareLast<T>(s: seq<Hit<(int, T)>>, k: nat)
    ensures Bare(LastK(s, k)) == LastK(Bare(s), k)
  {
  }

  // ----- sorting a selection -----

  function Filter<T>(s: seq<Hit<T>>, keep: Hit<T> -> bool): seq<Hit<T>> {
    if s == [] then [] else (if keep(s[0]) then [s[0]] else []) + Filter(s[1..], keep)
  }

  lemma FilterCons<T>(x: Hit<T>, s: seq<Hit<T>>, keep: Hit<T> -> bool)
    ensures Filter([x] + s, keep) == (if keep(x) then [x] else []) + Filter(s, keep)
  {
    assert ([x] + s)[1..] == s;
  }

  lemma {:induction false} FilterConcat<T>(a: seq<Hit<T>>, b: seq<Hit<T>>, keep: Hit<T> -> bool)
    ensures Filter(a + b, keep) == Filter(a, keep) + Filter(b, keep)
  {
    hide Filter;
    if a == [] {
      assert a + b == b;
      FilterNothing(keep);
      assert [] + Filter(b, keep) == Filter(b, keep);
    } else {
      var x, rest := a[0], a[1..];
      assert a == [x] + rest && a + b == [x] + (rest + b);
      FilterConcat(rest, b, keep);
      FilterCons(x, rest, keep);
      FilterCons(x, rest + b, keep);
    }
  }

  lemma {:induction false} FilterKeeps<T>(s: seq<Hit<T>>, keep: Hit<T> -> bool)
    ensures forall h <- Filter(s, keep) :: keep(h)
    ensures (forall h <- s :: keep(h)) ==> Filter(s, keep) == s
    ensures (forall h <- s :: !keep(h)) ==> Filter(s, keep) == []
  {
    if s != [] {
      FilterKeeps(s[1..], keep);
      assert s == [s[0]] + s[1..];
    }
  }

  lemma {:induction false} FilterSubset<T>(s: seq<Hit<T>>, keep: Hit<T> -> bool)
    ensures forall h <- Filter(s, keep) :: h in s
  {
    if s != [] {
      FilterSubset(s[1..], keep);
    }
  }

  /** In a sorted list, what is left of a selection is where it was. */
  lemma InsertFiltered<T>(x: Hit<T>, s: seq<Hit<T>>, keep: Hit<T> -> bool)
    requires Sorted(s)
    ensures Filter(Insert(x, s), keep) == if keep(x) then Insert(x, Filter(s, keep)) else Filter(s, keep)
  {
    hide Insert, Filter;
    var u, v := InsertSplits(x, s);
    FilterConcat(u + [x], v, keep);
    FilterConcat(u, [x], keep);
    FilterConcat(u, v, keep);
    FilterOne(x, keep);
    NotEarlier(x, u, v);
    FilterSubset(u, keep);
    FilterSubset(v, keep);
    if keep(x) {
      InsertBetween(x, Filter(u, keep), Filter(v, keep));
      assert Filter(u, keep) + [x] + Filter(v, keep) == Filter(u, keep) + ([x] + Filter(v, keep));
    } else {
      assert Filter(u, keep) + [] + Filter(v, keep) == Filter(u, keep) + Filter(v, keep);
    }
  }

  lemma FilterOne<T>(x: Hit<T>, keep: Hit<T> -> bool)
    ensures Filter([x], keep) == if keep(x) then [x] else []
  {
    assert [x][1..] == [];
  }

  lemma InsertBetween<T>(x: Hit<T>, u: seq<Hit<T>>, v: seq<Hit<T>>)
    requires (forall h <- u :: h.ts < x.ts) && (forall h <- v :: h.ts >= x.ts)
    ensures Insert(x, u + v) == u + [x] + v
  {
    hide Insert;
    InsertBack(x, u, v);
    if v != [] { assert v[0] in v; }
    InsertFront(x, [], v);
    assert [] + v == v;
    InsertNothing(x);
    assert u + ([x] + v) == u + [x] + v;
  }

  lemma InsertNothing<T>(x: Hit<T>)
    ensures Insert(x, []) == [x]
  {
    assert [x] + [] == [x];
  }

  /** Sorting a selection is selecting from the sorted list. */
  lemma {:induction false} SortFiltered<T>(s: seq<Hit<T>>, keep: Hit<T> -> bool)
    ensures Sort(Filter(s, keep)) == Filter(Sort(s), keep)
  {
    if s != [] {
      SortFiltered(s[1..], keep);
      SortSorted(s[1..]);
      InsertFiltered(s[0], Sort(s[1..]), keep);
      FilterOne(s[0], keep);
      if keep(s[0]) {
        assert ([s[0]] + Filter(s[1..], keep))[1..] == Filter(s[1..], keep);
      } else {
        assert [] + Filter(s[1..], keep) == Filter(s[1..], keep);
      }
    }
  }

  /** The last `k` of a selection are the last `k` of all exactly when they are
      all selected. */
  lemma LastOfSelection<T>(t: seq<Hit<T>>, k: nat, keep: Hit<T> -> bool)
    ensures LastK(Filter(t, keep), k) == LastK(t, k) <==> forall h <- LastK(t, k) :: keep(h)
  {
    hide Filter;
    FilterKeeps(t, keep);
    LastIsPart(Filter(t, keep), k);
    if forall h <- LastK(t, k) :: keep(h) {
      var n := if |t| <= k then 0 else |t| - k;
      assert t == t[..n] + t[n..] && LastK(t, k) == t[n..];
      FilterConcat(t[..n], t[n..], keep);
      FilterKeeps(t[n..], keep);
      if n == 0 {
        assert t[n..] == t;
      } else {
        assert LastK(Filter(t[..n], keep) + t[n..], k) == t[n..];
      }
    }
  }

  lemma LastIsPart<T>(s: seq<Hit<T>>, k: nat)
    ensures forall h <- LastK(s, k) :: h in s
  {
  }

  // ----- which hits are among the newest -----

  ghost predicate AllApart<T>(s: seq<Hit<T>>) { forall i, j | 0 <= i < j < |s| :: s[i] != s[j] }

  ghost predicate Once<T>(s: seq<Hit<T>>, x: Hit<T>) { multiset(s)[x] == 1 }

  /** With hits told apart, one is among the newest `k` exactly when fewer than
      `k` are behind it. */
  lemma AmongNewest<T>(all: seq<Hit<T>>, g: nat, k: nat)
    requires g < |all| && AllApart(all)
    ensures all[g] in LastK(Sort(all), k) <==> Behind(all, g) < k
  {
    hide Sort, CountFrom, LastK, Once, AllApart;
    var a, x, b := all[..g], all[g], all[g + 1..];
    SplitAround(all, g);
    var u, v := DropShows(a, x, b);
    OnceInAll(all, g);
    OnceSorted(all, x);
    OnceIn(u, x, v, k);
  }

  lemma SplitAround<T>(all: seq<Hit<T>>, g: nat)
    requires g < |all|
    ensures all == all[..g] + [all[g]] + all[g + 1..]
  {
  }

  lemma OnceSorted<T>(s: seq<Hit<T>>, x: Hit<T>)
    requires Once(s, x)
    ensures Once(Sort(s), x)
  {
    SortPermutes(s);
  }

  lemma OnceInAll<T>(all: seq<Hit<T>>, g: nat)
    requires g < |all| && AllApart(all)
    ensures Once(all, all[g])
  {
    var a, x, b := all[..g], all[g], all[g + 1..];
    SplitAround(all, g);
    assert forall i | 0 <= i < |b| :: b[i] == all[g + 1 + i];
    assert x !in a && x !in b;
    assert multiset(a + [x] + b) == multiset(a) + multiset{x} + multiset(b);
  }

  lemma OnceIn<T>(u: seq<Hit<T>>, x: Hit<T>, v: seq<Hit<T>>, k: nat)
    requires Once(u + [x] + v, x)
    ensures x in LastK(u + [x] + v, k) <==> |v| < k
  {
    var s := u + [x] + v;
    OnceNotElsewhere(u, x, v);
    if |v| < k {
      if |s| > k {
        assert s[|s| - k..][k - |v| - 1] == x;
      } else {
        assert s[|u|] == x;
      }
    } else {
      assert LastK(s, k) == v[|v| - k..];
    }
  }

  lemma OnceNotElsewhere<T>(u: seq<Hit<T>>, x: Hit<T>, v: seq<Hit<T>>)
    requires Once(u + [x] + v, x)
    ensures x !in u && x !in v
  {
    assert multiset(u + [x] + v) == multiset(u) + multiset{x} + multiset(v);
  }

  // ----- the exact condition -----

  lemma {:induction false} CutIsFilter<T>(sources: seq<seq<Hit<T>>>, k: nat, from: int, keep: Hit<(int, T)> -> bool)
    requires forall g, h: Hit<(int, T)> | 0 <= g < |Flatten(sources)| && h.item.0 == from + g ::
               keep(h) <==> KeptPlace(sources, k, g)
    ensures Flatten(CutAll(PlaceAll(sources, from), k)) == Filter(Flatten(PlaceAll(sources, from)), keep)
    decreases |sources|
  {
    hide LastK, Filter;
    FlattenCut(PlaceAll(sources, from), k);
    if sources == [] {
      FilterNothing(keep);
    } else {
      var s, more := sources[0], sources[1..];
      var placed := PlaceAll(more, from + |s|);
      assert PlaceAll(sources, from)[1..] == placed;
      assert |Flatten(sources)| == |s| + |Flatten(more)|;
      forall g, h: Hit<(int, T)> | 0 <= g < |Flatten(more)| && h.item.0 == from + |s| + g
        ensures keep(h) <==> KeptPlace(more, k, g)
      {
        assert keep(h) <==> KeptPlace(sources, k, |s| + g);
      }
      CutIsFilter(more, k, from + |s|, keep);
      CutOneIsFilter(sources, k, from, keep);
      FilterConcat(Place(s, from), Flatten(placed), keep);
    }
  }

  lemma FilterNothing<T>(keep: Hit<T> -> bool)
    ensures Filter([], keep) == []
  {
  }

  lemma CutOneIsFilter<T>(sources: seq<seq<Hit<T>>>, k: nat, from: int, keep: Hit<(int, T)> -> bool)
    requires sources != []
    requires forall g, h: Hit<(int, T)> | 0 <= g < |Flatten(sources)| && h.item.0 == from + g ::
               keep(h) <==> KeptPlace(sources, k, g)
    ensures Filter(Place(sources[0], from), keep) == LastK(Place(sources[0], from), k)
  {
    hide Filter, LastK;
    var s := sources[0];
    var p := Place(s, from);
    forall i | 0 <= i < |p| ensures keep(p[i]) <==> i >= |p| - k {
      assert keep(p[i]) <==> KeptPlace(sources, k, i);
    }
    FilterIsLast(p, k, keep);
  }

  /** Selecting exactly the last `k` places is taking the last `k`. */
  lemma FilterIsLast<T>(p: seq<Hit<T>>, k: nat, keep: Hit<T> -> bool)
    requires forall i | 0 <= i < |p| :: keep(p[i]) <==> i >= |p| - k
    ensures Filter(p, keep) == LastK(p, k)
  {
    hide Filter;
    var n := if |p| <= k then 0 else |p| - k;
    var cut, kept := p[..n], p[n..];
    SplitInTwo(p, n);
    FilterConcat(cut, kept, keep);
    AllDropped(cut, keep);
    AllSelected(kept, keep);
    assert [] + kept == kept && LastK(p, k) == kept;
  }

  lemma AllDropped<T>(s: seq<Hit<T>>, keep: Hit<T> -> bool)
    requires forall i | 0 <= i < |s| :: !keep(s[i])
    ensures Filter(s, keep) == []
  {
    hide Filter;
    FilterKeeps(s, keep);
  }

  lemma AllSelected<T>(s: seq<Hit<T>>, keep: Hit<T> -> bool)
    requires forall i | 0 <= i < |s| :: keep(s[i])
    ensures Filter(s, keep) == s
  {
    hide Filter;
    FilterKeeps(s, keep);
  }

  /** The newest `k` found from the newest `k` of each source, as hits with their
      places, are the newest `k` of everything exactly when every hit cut off from
      its source has at least `k` hits behind it. */
  lemma NewestOfNewestIff<T>(sources: seq<seq<Hit<T>>>, k: nat)
    ensures var placed := PlaceAll(sources, 0);
            LastK(Sort(Flatten(CutAll(placed, k))), k) == LastK(Sort(Flatten(placed)), k)
            <==> CutsAreBehind(sources, k)
  {
    hide Sort, LastK, Filter, Flatten, CutAll, Behind, KeptPlace;
    var placed, all := PlaceAll(sources, 0), Flatten(sources);
    var keep := (h: Hit<(int, T)>) => KeptPlace(sources, k, h.item.0);
    CutIsFilter(sources, k, 0, keep);
    var t := Flatten(placed);
    SortFiltered(t, keep);
    LastOfSelection(Sort(t), k, keep);
    PlaceFlat(sources, 0);
    forall g | 0 <= g < |all| ensures t[g] in LastK(Sort(t), k) <==> Behind(all, g) < k {
      AmongNewest(t, g, k);
      BehindPlaced(all, g);
    }
    NewestAreThere(t, k);
  }

  lemma NewestAreThere<T>(t: seq<Hit<T>>, k: nat)
    ensures forall h <- LastK(Sort(t), k) :: h in t
  {
    SortPermutes(t);
    forall h | h in LastK(Sort(t), k) ensures h in t {
      assert h in multiset(Sort(t));
    }
  }

  lemma BehindPlaced<T>(all: seq<Hit<T>>, g: nat)
    requires g < |all|
    ensures Behind(Place(all, 0), g) == Behind(all, g)
  {
    var p := Place(all, 0);
    assert p[..g] == Place(all[..g], 0) && p[g + 1..] == Place(all[g + 1..], g + 1);
    CountPlaced(all[..g], 0, all[g].ts + 1);
    CountPlaced(all[g + 1..], g + 1, all[g].ts);
  }

  lemma {:induction false} CountPlaced<T>(s: seq<Hit<T>>, from: int, ts: int)
    ensures CountFrom(Place(s, from), ts) == CountFrom(s, ts)
  {
    if s != [] {
      assert Place(s, from)[1..] == Place(s[1..], from + 1);
      CountPlaced(s[1..], from + 1, ts);
    }
  }

  /** Then the search, which knows no places, is right. */
  lemma NewestOfNewest<T>(sources: seq<seq<Hit<T>>>, k: nat)
    requires CutsAreBehind(sources, k)
    ensures LastK(Sort(Flatten(CutAll(sources, k))), k) == LastK(Sort(Flatten(sources)), k)
  {
    hide Sort, LastK, Flatten, CutAll, CutsAreBehind, Bare, PlaceAll;
    NewestOfNewestIff(sources, k);
    BareNewest(sources, k);
  }

  /** The places can be taken off before or after. */
  lemma BareNewest<T>(sources: seq<seq<Hit<T>>>, k: nat)
    ensures Bare(LastK(Sort(Flatten(CutAll(PlaceAll(sources, 0), k))), k))
         == LastK(Sort(Flatten(CutAll(sources, k))), k)
    ensures Bare(LastK(Sort(Flatten(PlaceAll(sources, 0))), k)) == LastK(Sort(Flatten(sources)), k)
  {
    hide Sort, LastK, Flatten, CutAll, Bare, Place;
    var placed := PlaceAll(sources, 0);
    BareLast(Sort(Flatten(CutAll(placed, k))), k);
    BareSort(Flatten(CutAll(placed, k)));
    BareCut(sources, k, 0);
    BareLast(Sort(Flatten(placed)), k);
    BareSort(Flatten(placed));
    PlaceFlat(sources, 0);
    BarePlace(Flatten(sources), 0);
  }

  lemma CutPlaced<T>(sources: seq<seq<Hit<T>>>, k: nat, from: int)
    requires sources != []
    ensures var s := sources[0];
            Flatten(CutAll(PlaceAll(sources, from), k))
            == LastK(Place(s, from), k) + Flatten(CutAll(PlaceAll(sources[1..], from + |s|), k))
  {
    hide LastK, Place;
    var s := sources[0];
    assert PlaceAll(sources, from)[1..] == PlaceAll(sources[1..], from + |s|);
    FlattenCut(PlaceAll(sources, from), k);
  }

  lemma {:induction false} BareCut<T>(sources: seq<seq<Hit<T>>>, k: nat, from: int)
    ensures Bare(Flatten(CutAll(PlaceAll(sources, from), k))) == Flatten(CutAll(sources, k))
    decreases |sources|
  {
    hide *;
    FlattenCut(sources, k);
    if sources == [] {
      NothingCut<T>(k, from);
    } else {
      var s := sources[0];
      CutPlaced(sources, k, from);
      BareCut(sources[1..], k, from + |s|);
      BareConcat(LastK(Place(s, from), k), Flatten(CutAll(PlaceAll(sources[1..], from + |s|), k)));
      BareLast(Place(s, from), k);
      BarePlace(s, from);
    }
  }

  lemma NothingCut<T>(k: nat, from: int)
    ensures Bare(Flatten(CutAll(PlaceAll<T>([], from), k))) == []
  {
  }

  /** It is enough that no source cuts off a hit newer than one it keeps, and so
      that every source is in time order. */
  lemma {:induction false} OldCutsAreBehind<T>(sources: seq<seq<Hit<T>>>, k: nat)
    requires forall s | s in sources :: CutIsOld(s, k)
    ensures CutsAreBehind(sources, k)
    decreases |sources|
  {
    hide CutIsOld, CountFrom;
    var all := Flatten(sources);
    forall g | 0 <= g < |all| && !KeptPlace(sources, k, g) ensures Behind(all, g) >= k {
      var s, more := sources[0], Flatten(sources[1..]);
      assert all == s + more;
      if g < |s| {
        SuffixCutsOld(s, g, k);
        EnoughLater(s[g..], more, k);
        assert s[g..][1..] + more == all[g + 1..];
      } else {
        OldCutsAreBehind(sources[1..], k);
        var i := g - |s|;
        assert !KeptPlace(sources[1..], k, i) && Behind(more, i) >= k;
        assert all[..g] == s + more[..i] && all[g + 1..] == more[i + 1..] && all[g] == more[i];
        CountConcat(s, more[..i], all[g].ts + 1);
      }
    }
  }

  lemma SuffixCutsOld<T>(s: seq<Hit<T>>, g: nat, k: nat)
    requires CutIsOld(s, k) && g < |s| - k
    ensures CutIsOld(s[g..], k) && |s[g..]| > k && s[g..][0] == s[g]
  {
    assert forall i | 0 <= i < |s| - g :: s[g..][i] == s[g + i];
  }

  lemma SortedCutsAreBehind<T>(sources: seq<seq<Hit<T>>>, k: nat)
    requires forall s | s in sources :: Sorted(s)
    ensures CutsAreBehind(sources, k)
  {
    hide CutIsOld, Sorted, CutsAreBehind;
    forall s | s in sources ensures CutIsOld(s, k) { SortedCutsOld(s, k); }
    OldCutsAreBehind(sources, k);
  }

  // ----- the search as the source runs it -----

  datatype Found = Found(source: Bytes, line: Bytes)

  type Match = Hit<Found>

  datatype Window = Window(since: Option<int>, until: Option<int>) {
    /** `admits`: no bound admits everything, else untimed records are out. */
    predicate Admits(ts: int) {
      (since.None? && until.None?)
      || (ts != TS_UNTIMED && (since.Some? ==> ts >= since.value) && (until.Some? ==> ts < until.value))
    }
  }

  /** In the window, and accepted by the predicate if there is one. */
  predicate Accepts(r: Match, w: Window, pred: Option<Match -> bool>) {
    w.Admits(r.ts) && (pred.Some? ==> pred.value(r))
  }

  /** The matches of a source, in file order. */
  function Matching(records: seq<Match>, w: Window, pred: Option<Match -> bool>): seq<Match> {
    if records == [] then []
    else (if Accepts(records[0], w, pred) then [records[0]] else []) + Matching(records[1..], w, pred)
  }

  lemma MatchingStep(records: seq<Match>, id: nat, w: Window, pred: Option<Match -> bool>)
    requires id <= |records|
    ensures Matching(records[id..], w, pred)
         == if id == |records| then []
            else (if Accepts(records[id], w, pred) then [records[id]] else []) + Matching(records[id + 1..], w, pred)
  {
    if id < |records| {
      assert records[id..][1..] == records[id + 1..];
    }
  }

  // ----- what a window lets through -----

  lemma MatchingCons(r: Match, s: seq<Match>, w: Window, pred: Option<Match -> bool>)
    ensures Matching([r] + s, w, pred) == (if Accepts(r, w, pred) then [r] else []) + Matching(s, w, pred)
    ensures Matching([], w, pred) == []
  {
    hide Accepts;
    assert ([r] + s)[1..] == s;
  }

  lemma {:induction false} MatchingParts(a: seq<Match>, r: Match, b: seq<Match>, w: Window, pred: Option<Match -> bool>)
    ensures Matching(a + [r] + b, w, pred)
         == Matching(a, w, pred) + (if Accepts(r, w, pred) then [r] else []) + Matching(b, w, pred)
  {
    hide Accepts, Matching;
    if a == [] {
      assert a + [r] + b == [r] + b;
      MatchingCons(r, b, w, pred);
    } else {
      var x, rest := a[0], a[1..];
      assert a == [x] + rest && a + [r] + b == [x] + (rest + [r] + b);
      MatchingCons(x, rest, w, pred);
      MatchingCons(x, rest + [r] + b, w, pred);
      MatchingParts(rest, r, b, w, pred);
    }
  }

  /** The matches of a list are those of its parts, and one record matches iff
      the window has no bound, or the record is timed and at or after `since`
      and before `until`; and the predicate, if there is one, takes it. */
  lemma MatchingIff(a: seq<Match>, r: Match, b: seq<Match>, since: Option<int>, until: Option<int>,
      pred: Option<Match -> bool>)
    ensures var w := Window(since, until);
            var takes := ((since.None? && until.None?)
                          || (r.ts != I64_MIN && (since.Some? ==> r.ts >= since.value)
                              && (until.Some? ==> r.ts < until.value)))
                         && (pred.Some? ==> pred.value(r));
            Matching(a + [r] + b, w, pred) == Matching(a, w, pred) + (if takes then [r] else []) + Matching(b, w, pred)
    ensures Matching([], Window(since, until), pred) == []
  {
    hide Matching;
    var w := Window(since, until);
    MatchingParts(a, r, b, w, pred);
    MatchingCons(r, b, w, pred);
  }

  /** Windows tile: every match of the time from `x` to `z`, or from `x` on, is
      in exactly one of the two parts around a moment `y` between. */
  lemma {:induction false} WindowsTile(records: seq<Match>, x: int, y: int, z: Option<int>,
      pred: Option<Match -> bool>)
    requires x <= y && (z.Some? ==> y <= z.value)
    ensures multiset(Matching(records, Window(Some(x), z), pred))
         == multiset(Matching(records, Window(Some(x), Some(y)), pred))
            + multiset(Matching(records, Window(Some(y), z), pred))
  {
    hide Matching, Accepts;
    var all, before, after := Window(Some(x), z), Window(Some(x), Some(y)), Window(Some(y), z);
    if records == [] {
      NothingMatches(all, pred);
      NothingMatches(before, pred);
      NothingMatches(after, pred);
    } else {
      var r, rest := records[0], records[1..];
      assert records == [r] + rest;
      WindowsTile(rest, x, y, z, pred);
      MatchingCons(r, rest, all, pred);
      MatchingCons(r, rest, before, pred);
      MatchingCons(r, rest, after, pred);
      OneTile(r, x, y, z, pred);
      JoinTiles(r, Accepts(r, before, pred), Matching(rest, before, pred), Accepts(r, after, pred),
        Matching(rest, after, pred), Matching(rest, all, pred));
    }
  }

  lemma NothingMatches(w: Window, pred: Option<Match -> bool>)
    ensures Matching([], w, pred) == []
  {
  }

  lemma OneTile(r: Match, x: int, y: int, z: Option<int>, pred: Option<Match -> bool>)
    requires x <= y && (z.Some? ==> y <= z.value)
    ensures var before, after := Window(Some(x), Some(y)), Window(Some(y), z);
            !(Accepts(r, before, pred) && Accepts(r, after, pred))
            && (Accepts(r, Window(Some(x), z), pred) <==> Accepts(r, before, pred) || Accepts(r, after, pred))
  {
  }

  lemma JoinTiles(r: Match, p: bool, before: seq<Match>, q: bool, after: seq<Match>, all: seq<Match>)
    requires !(p && q) && multiset(all) == multiset(before) + multiset(after)
    ensures multiset((if p || q then [r] else []) + all)
         == multiset((if p then [r] else []) + before) + multiset((if q then [r] else []) + after)
  {
  }

  /** `search`: a queue that never holds more than `limit` ids. */
  method Search(records: seq<Match>, w: Window, pred: Option<Match -> bool>, limit: nat)
    returns (hits: seq<Match>, total: nat)
    ensures hits == LastK(Matching(records, w, pred), limit)
    ensures total == |Matching(records, w, pred)|
  {
    hide LastK, Matching;
    hits, total := [], 0;
    NothingQueued(limit);
    ghost var seen: seq<Match> := [];
    assert records[0..] == records;
    for id := 0 to |records|
      invariant hits == LastK(seen, limit) && total == |seen|
      invariant Matching(records, w, pred) == seen + Matching(records[id..], w, pred)
    {
      var r := records[id];
      MatchingStep(records, id, w, pred);
      OneMoreSeen(seen, r, Matching(records[id + 1..], w, pred));
      if !w.Admits(r.ts) { continue; }
      if pred.Some? && !pred.value(r) { continue; }
      total := total + 1;
      QueueStep(seen, r, limit);
      seen := seen + [r];
      if limit > 0 {
        if |hits| == limit {
          hits := hits[1..];
        }
        hits := hits + [r];
      }
    }
    MatchingStep(records, |records|, w, pred);
    assert seen == Matching(records, w, pred);
  }

  lemma OneMoreSeen(seen: seq<Match>, r: Match, rest: seq<Match>)
    ensures seen + ([r] + rest) == (seen + [r]) + rest && seen + ([] + rest) == seen + rest
  {
  }

  lemma NothingQueued(limit: nat)
    ensures LastK<Match>([], limit) == []
  {
  }

  /** The queue drops its oldest id exactly when it is full. */
  lemma QueueStep(seen: seq<Match>, r: Match, limit: nat)
    ensures LastK(seen + [r], limit)
         == if limit == 0 then []
            else (if |LastK(seen, limit)| == limit then LastK(seen, limit)[1..] else LastK(seen, limit)) + [r]
    ensures limit == 0 ==> LastK(seen, limit) == []
  {
  }

  datatype Source = Source(name: Bytes, isStdin: bool, records: seq<Match>)

  function MatchesOf(specs: seq<Source>, w: Window, pred: Option<Match -> bool>): seq<seq<Match>> {
    if specs == [] then []
    else (if specs[0].isStdin then [] else [Matching(specs[0].records, w, pred)]) + MatchesOf(specs[1..], w, pred)
  }

  function SkippedOf(specs: seq<Source>): seq<Bytes> {
    if specs == [] then [] else (if specs[0].isStdin then [specs[0].name] else []) + SkippedOf(specs[1..])
  }

  lemma SpecCons(s: Source, rest: seq<Source>, w: Window, pred: Option<Match -> bool>)
    ensures MatchesOf([s] + rest, w, pred)
         == (if s.isStdin then [] else [Matching(s.records, w, pred)]) + MatchesOf(rest, w, pred)
    ensures SkippedOf([s] + rest) == (if s.isStdin then [s.name] else []) + SkippedOf(rest)
    ensures MatchesOf([], w, pred) == [] && SkippedOf([]) == []
  {
    hide Matching;
    assert ([s] + rest)[1..] == rest;
  }

  /** Standard input is named as skipped and searched by nobody; every other
      source is searched, in the order given. */
  lemma {:induction false} SourcesIff(a: seq<Source>, s: Source, b: seq<Source>, w: Window, pred: Option<Match -> bool>)
    ensures MatchesOf(a + [s] + b, w, pred)
         == MatchesOf(a, w, pred) + (if s.isStdin then [] else [Matching(s.records, w, pred)]) + MatchesOf(b, w, pred)
    ensures SkippedOf(a + [s] + b) == SkippedOf(a) + (if s.isStdin then [s.name] else []) + SkippedOf(b)
    ensures MatchesOf([], w, pred) == [] && SkippedOf([]) == []
  {
    hide Matching, MatchesOf, SkippedOf;
    SpecCons(s, b, w, pred);
    if a == [] {
      assert a + [s] + b == [s] + b;
    } else {
      var x, rest := a[0], a[1..];
      assert a == [x] + rest && a + [s] + b == [x] + (rest + [s] + b);
      SpecCons(x, rest, w, pred);
      SpecCons(x, rest + [s] + b, w, pred);
      SourcesIff(rest, s, b, w, pred);
    }
  }

  /** The merge of the per-source results: the newest `limit` matches of all
      readable sources, and how many there are in all. */
  method SearchAll(specs: seq<Source>, w: Window, pred: Option<Match -> bool>, limit: nat)
    returns (newest: seq<Match>, total: nat, skipped: seq<Bytes>)
    ensures newest == LastK(Sort(Flatten(CutAll(MatchesOf(specs, w, pred), limit))), limit)
    ensures var all := MatchesOf(specs, w, pred);
            newest == Bare(NewestPlaced(all, limit))
            && (NewestPlaced(all, limit) == LastK(Sort(Flatten(PlaceAll(all, 0))), limit)
                <==> CutsAreBehind(all, limit))
    ensures CutsAreBehind(MatchesOf(specs, w, pred), limit)
         || (forall s | s in MatchesOf(specs, w, pred) :: Sorted(s))
        ==> newest == LastK(Sort(Flatten(MatchesOf(specs, w, pred))), limit)
    ensures total == |Flatten(MatchesOf(specs, w, pred))|
    ensures skipped == SkippedOf(specs)
  {
    hide MatchesOf, SkippedOf, LastK, Sort, Bare, NewestPlaced, PlaceAll, CutsAreBehind, Sorted, Matching, Flatten,
        CutAll;
    var hits: seq<Match> := [];
    total, skipped := 0, [];
    ghost var all := MatchesOf(specs, w, pred);
    ghost var done: seq<seq<Match>> := [];
    SpecsStart(specs, w, pred, limit);
    for i := 0 to |specs|
      invariant all == done + MatchesOf(specs[i..], w, pred)
      invariant hits == Flatten(CutAll(done, limit)) && total == |Flatten(done)|
      invariant SkippedOf(specs) == skipped + SkippedOf(specs[i..])
    {
      SpecStep(specs, i, w, pred);
      if specs[i].isStdin {
        skipped := skipped + [specs[i].name];
        continue;
      }
      var found, n := Search(specs[i].records, w, pred, limit);
      total := total + n;
      hits := hits + found;
      ghost var s := Matching(specs[i].records, w, pred);
      DoneSnoc(done, s, limit);
      done := done + [s];
    }
    SpecsEnd(specs, w, pred);
    assert done == all;
    hits := Sort(hits);
    newest := LastK(hits, limit);
    NewestOverall(all, limit);
  }

  lemma SpecsStart(specs: seq<Source>, w: Window, pred: Option<Match -> bool>, limit: nat)
    ensures specs[0..] == specs && Flatten(CutAll<Found>([], limit)) == [] && Flatten<Match>([]) == []
  {
  }

  lemma SpecsEnd(specs: seq<Source>, w: Window, pred: Option<Match -> bool>)
    ensures MatchesOf(specs[|specs|..], w, pred) == [] && SkippedOf(specs[|specs|..]) == []
  {
  }

  lemma SpecStep(specs: seq<Source>, i: nat, w: Window, pred: Option<Match -> bool>)
    requires i < |specs|
    ensures MatchesOf(specs[i..], w, pred)
         == (if specs[i].isStdin then [] else [Matching(specs[i].records, w, pred)])
            + MatchesOf(specs[i + 1..], w, pred)
    ensures SkippedOf(specs[i..]) == (if specs[i].isStdin then [specs[i].name] else []) + SkippedOf(specs[i + 1..])
  {
    hide Matching;
    assert specs[i..][1..] == specs[i + 1..];
  }

  lemma DoneSnoc(done: seq<seq<Match>>, s: seq<Match>, limit: nat)
    ensures Flatten(CutAll(done + [s], limit)) == Flatten(CutAll(done, limit)) + LastK(s, limit)
    ensures Flatten(done + [s]) == Flatten(done) + s
  {
    hide Flatten, CutAll, LastK;
    FlattenSnoc(done, s);
    CutSnoc(done, s, limit);
    FlattenSnoc(CutAll(done, limit), LastK(s, limit));
  }

  /** What the search keeps, as matches with their places among all. */
  function NewestPlaced<T>(sources: seq<seq<Hit<T>>>, k: nat): seq<Hit<(int, T)>> {
    LastK(Sort(Flatten(CutAll(PlaceAll(sources, 0), k))), k)
  }

  lemma NewestOverall(sources: seq<seq<Match>>, k: nat)
    ensures Bare(NewestPlaced(sources, k)) == LastK(Sort(Flatten(CutAll(sources, k))), k)
    ensures NewestPlaced(sources, k) == LastK(Sort(Flatten(PlaceAll(sources, 0))), k) <==> CutsAreBehind(sources, k)
    ensures CutsAreBehind(sources, k) || (forall s | s in sources :: Sorted(s))
        ==> LastK(Sort(Flatten(CutAll(sources, k))), k) == LastK(Sort(Flatten(sources)), k)
  {
    hide CutsAreBehind, Sorted, LastK, Sort, Flatten, CutAll, PlaceAll, Bare;
    NewestOfNewestIff(sources, k);
    BareNewest(sources, k);
    if forall s | s in sources :: Sorted(s) {
      SortedCutsAreBehind(sources, k);
    }
    if CutsAreBehind(sources, k) {
      NewestOfNewest(sources, k);
    }
  }

  lemma {:induction false} CutSnoc(sources: seq<seq<Match>>, s: seq<Match>, k: nat)
    ensures CutAll(sources + [s], k) == CutAll(sources, k) + [LastK(s, k)]
  {
    if sources == [] {
      assert sources + [s] == [s];
      assert CutAll([s], k) == [LastK(s, k)] + CutAll([s][1..], k);
    } else {
      assert (sources + [s])[1..] == sources[1..] + [s];
      CutSnoc(sources[1..], s, k);
    }
  }
}
