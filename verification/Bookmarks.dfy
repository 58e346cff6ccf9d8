/** The bookmark sidecar: a bounded map of sources whose oldest entries are
    found by comparing timestamp strings. */
module Bookmarks {
  import opened Common
  import opened Decimal
  import opened Rfc3339

  const MAX_SOURCES: nat := 256

  datatype Entry = Entry(inode: nat, size: nat, tabs: seq<seq<nat>>, updated: Bytes)

  type Sources = map<Bytes, Entry>

  predicate NoBookmarks(tabs: seq<seq<nat>>) { forall t <- tabs :: t == [] }

  // ----- stamps -----

  /** String order: `a` sorts no later than `b`. */
  predicate NotAfter(a: Bytes, b: Bytes) { !LexLess(b, a) }

  lemma {:induction false} LexAsymmetric(a: Bytes, b: Bytes)
    ensures !(LexLess(a, b) && LexLess(b, a))
  {
    if a != [] && b != [] {
      LexAsymmetric(a[1..], b[1..]);
    }
  }

  lemma {:induction false} NotAfterTransitive(a: Bytes, b: Bytes, c: Bytes)
    requires NotAfter(a, b) && NotAfter(b, c)
    ensures NotAfter(a, c)
  {
    if a != [] && b != [] && c != [] {
      if a[0] == b[0] == c[0] {
        NotAfterTransitive(a[1..], b[1..], c[1..]);
      }
    }
  }

  // ----- sorting the paths -----

  /** The paths of the map in some order: the order of a hash map is arbitrary. */
  predicate Enumerates(order: seq<Bytes>, sources: Sources) {
    && (forall p <- order :: p in sources) && (forall p <- sources :: p in order)
    && forall i, j | 0 <= i < j < |order| :: order[i] != order[j]
  }

  predicate OldestFirst(s: seq<Bytes>, sources: Sources)
    requires forall p <- s :: p in sources
  {
    forall i, j | 0 <= i < j < |s| :: NotAfter(sources[s[i]].updated, sources[s[j]].updated)
  }

  function Insert(x: Bytes, s: seq<Bytes>, sources: Sources): (r: seq<Bytes>)
    requires x in sources && forall p <- s :: p in sources
    ensures multiset(r) == multiset(s) + multiset{x}
    ensures forall p :: p in r <==> p == x || p in s
  {
    if s == [] || NotAfter(sources[x].updated, sources[s[0]].updated) then [x] + s
    else
      assert s == [s[0]] + s[1..];
      [s[0]] + Insert(x, s[1..], sources)
  }

  /** The stable sort by `updated`. */
  function SortPaths(s: seq<Bytes>, sources: Sources): (r: seq<Bytes>)
    requires forall p <- s :: p in sources
    ensures multiset(r) == multiset(s) && |r| == |s|
    ensures forall p :: p in r <==> p in s
  {
    if s == [] then []
    else
      assert s == [s[0]] + s[1..];
      var r := Insert(s[0], SortPaths(s[1..], sources), sources);
      assert |multiset(r)| == |multiset(s)|;
      r
  }

  lemma {:induction false} InsertSorts(x: Bytes, s: seq<Bytes>, sources: Sources)
    requires x in sources && (forall p <- s :: p in sources) && OldestFirst(s, sources)
    ensures OldestFirst(Insert(x, s, sources), sources)
  {
    hide NotAfter;
    var r := Insert(x, s, sources);
    if s == [] {
    } else if NotAfter(sources[x].updated, sources[s[0]].updated) {
      forall j | 1 <= j < |r| ensures NotAfter(sources[x].updated, sources[r[j]].updated) {
        if j > 1 {
          NotAfterTransitive(sources[x].updated, sources[s[0]].updated, sources[s[j - 1]].updated);
        }
      }
    } else {
      InsertSorts(x, s[1..], sources);
      AfterHead(sources[x].updated, sources[s[0]].updated);
      forall j | 1 <= j < |r| ensures NotAfter(sources[s[0]].updated, sources[r[j]].updated) {
        assert r[j] in r[1..];
      }
    }
  }

  lemma AfterHead(x: Bytes, head: Bytes)
    requires !NotAfter(x, head)
    ensures NotAfter(head, x)
  {
    LexAsymmetric(x, head);
  }

  lemma {:induction false} SortPathsSorts(s: seq<Bytes>, sources: Sources)
    requires forall p <- s :: p in sources
    ensures OldestFirst(SortPaths(s, sources), sources)
  {
    if s != [] {
      SortPathsSorts(s[1..], sources);
      InsertSorts(s[0], SortPaths(s[1..], sources), sources);
    }
  }

  // ----- eviction -----

  function Paths(s: seq<Bytes>): set<Bytes> { set p | p in s }

  lemma {:induction false} DistinctCount(s: seq<Bytes>)
    requires forall i, j | 0 <= i < j < |s| :: s[i] != s[j]
    ensures |Paths(s)| == |s|
  {
    if s == [] {
      assert Paths(s) == {};
    } else {
      var init, last := s[..|s| - 1], s[|s| - 1];
      DistinctCount(init);
      assert Paths(s) == Paths(init) + {last};
    }
  }

  lemma EnumerationCounts(sources: Sources, order: seq<Bytes>)
    requires Enumerates(order, sources)
    ensures |order| == |sources|
  {
    DistinctCount(order);
    assert Paths(order) == sources.Keys;
  }

  lemma EnumerationFacts(sources: Sources, order: seq<Bytes>)
    requires Enumerates(order, sources)
    ensures |order| == |sources| && forall p <- order :: p in sources
  {
    EnumerationCounts(sources, order);
  }

  /** The map without the first paths of the sorted list, down to the limit. */
  function Evicted(sources: Sources, order: seq<Bytes>): Sources
    requires Enumerates(order, sources)
  {
    EnumerationCounts(sources, order);
    if |sources| <= MAX_SOURCES then sources
    else sources - Paths(SortPaths(order, sources)[..|sources| - MAX_SOURCES])
  }

  lemma SortedStaysDistinct(s: seq<Bytes>, r: seq<Bytes>)
    requires multiset(r) == multiset(s) && forall i, j | 0 <= i < j < |s| :: s[i] != s[j]
    ensures forall i, j | 0 <= i < j < |r| :: r[i] != r[j]
  {
    forall i, j | 0 <= i < j < |r| ensures r[i] != r[j] {
      Once(s, r[i]);
      if r[i] == r[j] {
        Twice(r, i, j);
      }
    }
  }

  lemma Twice(r: seq<Bytes>, i: nat, j: nat)
    requires i < j < |r| && r[i] == r[j]
    ensures multiset(r)[r[i]] >= 2
  {
    assert r == r[..i] + [r[i]] + r[i + 1..j] + [r[j]] + r[j + 1..];
  }

  lemma {:induction false} Once(s: seq<Bytes>, x: Bytes)
    requires forall i, j | 0 <= i < j < |s| :: s[i] != s[j]
    ensures multiset(s)[x] <= 1
  {
    if s != [] {
      assert s == [s[0]] + s[1..];
      Once(s[1..], x);
      assert s[0] !in s[1..];
    }
  }

  predicate Distinct(r: seq<Bytes>) { forall i, j | 0 <= i < j < |r| :: r[i] != r[j] }

  ghost predicate SamePaths(sources: Sources, r: seq<Bytes>) { forall p :: p in sources <==> p in r }

  lemma DropFirst(sources: Sources, r: seq<Bytes>, m: nat)
    requires SamePaths(sources, r) && Distinct(r) && m <= |r| == |sources|
    ensures var kept := sources - Paths(r[..m]);
            |kept| == |sources| - m && SamePaths(kept, r[m..])
  {
    var kept := sources - Paths(r[..m]);
    DistinctCount(r[..m]);
    assert Paths(r[..m]) <= sources.Keys;
    assert kept.Keys == sources.Keys - Paths(r[..m]);
  }

  lemma InBack(r: seq<Bytes>, m: nat, i: nat)
    requires m <= |r| && i < |r|
    ensures i >= m ==> r[i] in r[m..]
  {
    if i >= m {
      assert r[m..][i - m] == r[i];
    }
  }

  lemma FrontNotAfterBack(sources: Sources, r: seq<Bytes>, m: nat, d: Bytes, k: Bytes)
    requires (forall p <- r :: p in sources) && OldestFirst(r, sources) && m <= |r|
    requires d in r && d !in r[m..] && k in r[m..]
    ensures NotAfter(sources[d].updated, sources[k].updated)
  {
    hide NotAfter;
    var i :| 0 <= i < |r| && r[i] == d;
    var j :| 0 <= j < |r[m..]| && r[m..][j] == k;
    InBack(r, m, i);
    assert r[m + j] == k;
  }

  lemma SortedEnumerates(sources: Sources, order: seq<Bytes>)
    requires Enumerates(order, sources)
    ensures var r := SortPaths(order, sources);
            |r| == |sources| && SamePaths(sources, r) && Distinct(r)
            && (forall p <- r :: p in sources) && OldestFirst(r, sources)
  {
    hide NotAfter, SortPaths, OldestFirst;
    EnumerationCounts(sources, order);
    SortPathsSorts(order, sources);
    SortedStaysDistinct(order, SortPaths(order, sources));
  }

  lemma EvictedUnfolds(sources: Sources, order: seq<Bytes>)
    requires Enumerates(order, sources) && |sources| > MAX_SOURCES
    ensures (forall p <- order :: p in sources) && |SortPaths(order, sources)| == |sources|
    ensures Evicted(sources, order) == sources - Paths(SortPaths(order, sources)[..|sources| - MAX_SOURCES])
  {
    EnumerationCounts(sources, order);
  }

  lemma EvictedByRank(sources: Sources, order: seq<Bytes>, r: seq<Bytes>)
    requires Enumerates(order, sources) && |sources| > MAX_SOURCES && r == SortPaths(order, sources)
    ensures var kept := Evicted(sources, order);
            |r| == |sources| && |kept| == MAX_SOURCES && SamePaths(kept, r[|sources| - MAX_SOURCES..])
  {
    hide *;
    EvictedUnfolds(sources, order);
    SortedEnumerates(sources, order);
    DropFirst(sources, r, |sources| - MAX_SOURCES);
  }

  lemma DroppedNotAfterKept(sources: Sources, order: seq<Bytes>, d: Bytes, k: Bytes)
    requires Enumerates(order, sources) && d in sources && k in sources
    requires d !in Evicted(sources, order) && k in Evicted(sources, order)
    ensures NotAfter(sources[d].updated, sources[k].updated)
  {
    hide NotAfter, SortPaths, OldestFirst, Paths, Enumerates;
    EnumerationFacts(sources, order);
    var r := SortPaths(order, sources);
    if |sources| > MAX_SOURCES {
      EvictedByRank(sources, order, r);
      SortedEnumerates(sources, order);
      FrontNotAfterBack(sources, r, |sources| - MAX_SOURCES, d, k);
    }
  }

  /** Eviction keeps whole entries, stops at the limit, and no dropped entry has
      a later stamp than a kept one. */
  lemma EvictsOldest(sources: Sources, order: seq<Bytes>)
    requires Enumerates(order, sources)
    ensures var kept := Evicted(sources, order);
            |kept| == Min(|sources|, 256)
            && (forall p <- kept :: p in sources && kept[p] == sources[p])
            && (forall d <- sources, k <- kept :: d !in kept ==> NotAfter(sources[d].updated, sources[k].updated))
  {
    hide NotAfter, SortPaths, Paths, Enumerates;
    var kept := Evicted(sources, order);
    if |sources| > MAX_SOURCES {
      EnumerationFacts(sources, order);
      EvictedByRank(sources, order, SortPaths(order, sources));
    }
    hide Evicted;
    forall d, k | d in sources && k in kept && d !in kept ensures NotAfter(sources[d].updated, sources[k].updated) {
      DroppedNotAfterKept(sources, order, d, k);
    }
  }

  // ----- the operations -----

  function Upserted(sources: Sources, path: Bytes, e: Entry, order: seq<Bytes>): Sources
    requires Enumerates(order, sources[path := e])
  {
    if NoBookmarks(e.tabs) then sources - {path} else Evicted(sources[path := e], order)
  }

  /** Bookmarks survive while the file is the same and has not shrunk; a stale
      entry is forgotten. */
  predicate Restorable(sources: Sources, path: Bytes, inode: nat, size: nat) {
    path in sources && sources[path].inode == inode && sources[path].size <= size
  }

  // ----- exactly when a save survives -----

  /** Every set of paths can be listed. */
  lemma {:induction false} Listing(paths: set<Bytes>) returns (order: seq<Bytes>)
    ensures Distinct(order) && forall p :: p in paths <==> p in order
    decreases |paths|
  {
    order := [];
    if paths != {} {
      var p :| p in paths;
      var rest := Listing(paths - {p});
      order := [p] + rest;
    }
  }

  /** The other sources with an earlier stamp, and those whose stamp is not later. */
  ghost function Earlier(sources: Sources, path: Bytes, stamp: Bytes): set<Bytes> {
    set q | q in sources && q != path && LexLess(sources[q].updated, stamp)
  }

  ghost function NotLater(sources: Sources, path: Bytes, stamp: Bytes): set<Bytes> {
    set q | q in sources && q != path && NotAfter(sources[q].updated, stamp)
  }

  /** Only earlier stamps stand in front of the path. */
  predicate EarlierInFront(r: seq<Bytes>, x: Bytes, sources: Sources)
    requires x in sources && forall p <- r :: p in sources
  {
    forall j, k | 0 <= j < k < |r| && r[k] == x :: LexLess(sources[r[j]].updated, sources[x].updated)
  }

  /** Only later stamps stand behind the path. */
  predicate LaterBehind(r: seq<Bytes>, x: Bytes, sources: Sources)
    requires x in sources && forall p <- r :: p in sources
  {
    forall j, k | 0 <= j < k < |r| && r[j] == x :: LexLess(sources[x].updated, sources[r[k]].updated)
  }

  lemma {:induction false} InsertedInFront(x: Bytes, s: seq<Bytes>, sources: Sources)
    requires x in sources && x !in s && forall p <- s :: p in sources
    ensures EarlierInFront(Insert(x, s, sources), x, sources)
  {
    hide LexLess;
    if s != [] && !NotAfter(sources[x].updated, sources[s[0]].updated) {
      InsertedInFront(x, s[1..], sources);
    }
  }

  lemma {:induction false} InsertedBehind(y: Bytes, s: seq<Bytes>, x: Bytes, sources: Sources)
    requires x in sources && y in sources && y != x && (forall p <- s :: p in sources) && LaterBehind(s, x, sources)
    ensures LaterBehind(Insert(y, s, sources), x, sources)
  {
    hide LexLess;
    if s != [] && !NotAfter(sources[y].updated, sources[s[0]].updated) {
      InsertedBehind(y, s[1..], x, sources);
      var r := Insert(y, s[1..], sources);
      forall k | 0 <= k < |r| && s[0] == x
        ensures LexLess(sources[x].updated, sources[r[k]].updated)
      {
        assert r[k] in r;
      }
    }
  }

  /** A path listed first ends up behind earlier stamps only. */
  lemma ListedFirst(x: Bytes, rest: seq<Bytes>, sources: Sources)
    requires x in sources && x !in rest && forall p <- rest :: p in sources
    ensures EarlierInFront(SortPaths([x] + rest, sources), x, sources)
  {
    hide EarlierInFront;
    assert ([x] + rest)[1..] == rest;
    InsertedInFront(x, SortPaths(rest, sources), sources);
  }

  /** A path listed last ends up in front of later stamps only. */
  lemma {:induction false} ListedLast(rest: seq<Bytes>, x: Bytes, sources: Sources)
    requires x in sources && x !in rest && forall p <- rest :: p in sources
    ensures LaterBehind(SortPaths(rest + [x], sources), x, sources)
  {
    var s := rest + [x];
    if rest == [] {
      assert s[1..] == [];
    } else {
      assert s[1..] == rest[1..] + [x] && s[0] == rest[0];
      ListedLast(rest[1..], x, sources);
      InsertedBehind(s[0], SortPaths(s[1..], sources), x, sources);
    }
  }

  lemma SubsetSize(a: set<Bytes>, b: set<Bytes>)
    requires a <= b
    ensures |a| <= |b|
  {
    assert |b - a| == |b| - |a|;
  }

  lemma FrontCount(r: seq<Bytes>, i: nat)
    requires Distinct(r) && i <= |r|
    ensures |Paths(r[..i])| == i
  {
    DistinctCount(r[..i]);
  }

  /** In any sorted list the place of a path is at least the number of earlier
      stamps and at most the number of those that are not later. */
  lemma PlaceBounds(all: Sources, r: seq<Bytes>, i: nat)
    requires SamePaths(all, r) && Distinct(r) && (forall p <- r :: p in all) && OldestFirst(r, all) && i < |r|
    ensures |Earlier(all, r[i], all[r[i]].updated)| <= i <= |NotLater(all, r[i], all[r[i]].updated)|
  {
    hide LexLess;
    var x := r[i];
    FrontCount(r, i);
    forall q | q in Earlier(all, x, all[x].updated)
      ensures q in Paths(r[..i])
    {
      var j :| 0 <= j < |r| && r[j] == q;
      assert j < i;
      assert r[..i][j] == q;
    }
    SubsetSize(Earlier(all, x, all[x].updated), Paths(r[..i]));
    forall q | q in Paths(r[..i])
      ensures q in NotLater(all, x, all[x].updated)
    {
      var j :| 0 <= j < i && r[j] == q;
    }
    SubsetSize(Paths(r[..i]), NotLater(all, x, all[x].updated));
  }

  lemma PlaceAmongEarlier(all: Sources, r: seq<Bytes>, i: nat)
    requires Distinct(r) && (forall p <- r :: p in all) && i < |r| && EarlierInFront(r, r[i], all)
    ensures i <= |Earlier(all, r[i], all[r[i]].updated)|
  {
    hide LexLess;
    var x := r[i];
    FrontCount(r, i);
    forall q | q in Paths(r[..i])
      ensures q in Earlier(all, x, all[x].updated)
    {
      var j :| 0 <= j < i && r[j] == q;
    }
    SubsetSize(Paths(r[..i]), Earlier(all, x, all[x].updated));
  }

  lemma PlaceBehindNotLater(all: Sources, r: seq<Bytes>, i: nat)
    requires SamePaths(all, r) && Distinct(r) && (forall p <- r :: p in all) && i < |r| && LaterBehind(r, r[i], all)
    ensures |NotLater(all, r[i], all[r[i]].updated)| <= i
  {
    hide LexLess;
    var x := r[i];
    FrontCount(r, i);
    forall q | q in NotLater(all, x, all[x].updated)
      ensures q in Paths(r[..i])
    {
      var j :| 0 <= j < |r| && r[j] == q;
      assert j < i;
      assert r[..i][j] == q;
    }
    SubsetSize(NotLater(all, x, all[x].updated), Paths(r[..i]));
  }

  /** A path stays exactly when its place in the sorted list is not among those
      that are dropped. */
  lemma KeptByPlace(all: Sources, order: seq<Bytes>, x: Bytes) returns (r: seq<Bytes>, i: nat)
    requires Enumerates(order, all) && |all| > MAX_SOURCES && x in all
    ensures (forall p <- order :: p in all) && r == SortPaths(order, all)
    ensures SamePaths(all, r) && Distinct(r) && (forall p <- r :: p in all) && OldestFirst(r, all)
    ensures i < |r| && r[i] == x && (x in Evicted(all, order) <==> i >= |all| - MAX_SOURCES)
  {
    hide Evicted, SortPaths, OldestFirst, Enumerates;
    EvictedUnfolds(all, order);
    r := SortPaths(order, all);
    EvictedByRank(all, order, r);
    SortedEnumerates(all, order);
    i :| 0 <= i < |r| && r[i] == x;
    InBack(r, |all| - MAX_SOURCES, i);
  }

  /** The others and their stamps are as before the save. */
  lemma OthersAsBefore(sources: Sources, path: Bytes, e: Entry)
    ensures var all := sources[path := e];
            Earlier(all, path, e.updated) == Earlier(sources, path, e.updated)
            && NotLater(all, path, e.updated) == NotLater(sources, path, e.updated)
  {
    hide LexLess;
  }

  predicate Survives(sources: Sources, path: Bytes, e: Entry, order: seq<Bytes>, size: nat)
    requires Enumerates(order, sources[path := e])
  {
    Restorable(Upserted(sources, path, e, order), path, e.inode, size)
    && Upserted(sources, path, e, order)[path] == e
  }

  lemma SurvivesWhenKept(sources: Sources, path: Bytes, e: Entry, order: seq<Bytes>, size: nat)
    requires Enumerates(order, sources[path := e])
    ensures Survives(sources, path, e, order, size)
       <==> !NoBookmarks(e.tabs) && e.size <= size && path in Evicted(sources[path := e], order)
  {
    hide Evicted, NoBookmarks, NotAfter, Enumerates;
    EvictsOldest(sources[path := e], order);
  }

  lemma AllKept(all: Sources, order: seq<Bytes>)
    requires Enumerates(order, all) && |all| <= MAX_SOURCES
    ensures Evicted(all, order) == all
  {
  }

  /** Under every order the save keeps its place when there is room or enough
      earlier stamps can be dropped, and loses it when too few others can. */
  lemma PlaceIsEnough(sources: Sources, path: Bytes, e: Entry, order: seq<Bytes>)
    requires Enumerates(order, sources[path := e])
    ensures var all := sources[path := e];
            (|all| <= MAX_SOURCES || |Earlier(sources, path, e.updated)| >= |all| - MAX_SOURCES
             ==> path in Evicted(all, order))
            && (|all| > MAX_SOURCES && |NotLater(sources, path, e.updated)| < |all| - MAX_SOURCES
                ==> path !in Evicted(all, order))
  {
    hide Evicted, Enumerates, Earlier, NotLater, SamePaths, Distinct, OldestFirst;
    var all := sources[path := e];
    if |all| <= MAX_SOURCES {
      AllKept(all, order);
    } else {
      OthersAsBefore(sources, path, e);
      var r, i := KeptByPlace(all, order, path);
      PlaceBounds(all, r, i);
    }
  }

  /** Listed first, a path is dropped unless enough earlier stamps can be. */
  lemma LosingOrder(sources: Sources, path: Bytes, e: Entry) returns (order: seq<Bytes>)
    ensures var all := sources[path := e];
            Enumerates(order, all)
            && (path in Evicted(all, order)
                ==> |all| <= MAX_SOURCES || |Earlier(sources, path, e.updated)| >= |all| - MAX_SOURCES)
  {
    hide Evicted, Earlier, SamePaths, OldestFirst, EarlierInFront, SortPaths;
    var all := sources[path := e];
    var rest := Listing(all.Keys - {path});
    order := [path] + rest;
    if |all| > MAX_SOURCES {
      OthersAsBefore(sources, path, e);
      var r, i := KeptByPlace(all, order, path);
      ListedFirst(path, rest, all);
      PlaceAmongEarlier(all, r, i);
    }
  }

  /** Listed last, a path is kept unless too few others can be dropped. */
  lemma WinningOrder(sources: Sources, path: Bytes, e: Entry) returns (order: seq<Bytes>)
    ensures var all := sources[path := e];
            Enumerates(order, all)
            && (path !in Evicted(all, order)
                ==> |all| > MAX_SOURCES && |NotLater(sources, path, e.updated)| < |all| - MAX_SOURCES)
  {
    hide Evicted, NotLater, SamePaths, OldestFirst, LaterBehind, SortPaths;
    var all := sources[path := e];
    var rest := Listing(all.Keys - {path});
    order := rest + [path];
    if |all| > MAX_SOURCES {
      OthersAsBefore(sources, path, e);
      var r, i := KeptByPlace(all, order, path);
      ListedLast(rest, path, all);
      PlaceBehindNotLater(all, r, i);
    } else {
      AllKept(all, order);
    }
  }

  lemma SomeBookmark(tabs: seq<seq<nat>>)
    ensures NoBookmarks(tabs) <==> forall t <- tabs :: t == []
    ensures !NoBookmarks(tabs) <==> exists t <- tabs :: t != []
  {
  }

  /** A save can be restored under every order of the hash map exactly when it
      has bookmarks, the file has not shrunk, and there is room or as many other
      stamps are strictly earlier as entries have to go: equal stamps, which a
      clock that counts whole seconds gives, are not enough. */
  lemma SavedSurvivesIff(sources: Sources, path: Bytes, e: Entry, size: nat)
    ensures (forall order | Enumerates(order, sources[path := e]) :: Survives(sources, path, e, order, size))
        <==> (exists t <- e.tabs :: t != []) && e.size <= size
             && (|sources[path := e]| <= MAX_SOURCES
                 || |Earlier(sources, path, e.updated)| >= |sources[path := e]| - MAX_SOURCES)
  {
    SomeBookmark(e.tabs);
    hide Enumerates, Survives, Evicted, Earlier, NoBookmarks;
    if !NoBookmarks(e.tabs) && e.size <= size
       && (|sources[path := e]| <= MAX_SOURCES
           || |Earlier(sources, path, e.updated)| >= |sources[path := e]| - MAX_SOURCES) {
      forall order | Enumerates(order, sources[path := e]) ensures Survives(sources, path, e, order, size) {
        PlaceIsEnough(sources, path, e, order);
        SurvivesWhenKept(sources, path, e, order, size);
      }
    } else {
      var order := LosingOrder(sources, path, e);
      SurvivesWhenKept(sources, path, e, order, size);
      assert !Survives(sources, path, e, order, size);
    }
  }

  /** Where the sidecar kept to its limit so far, one strictly earlier stamp is
      enough. */
  lemma SavedWithinLimitIff(sources: Sources, path: Bytes, e: Entry, size: nat)
    requires |sources| <= MAX_SOURCES
    ensures (forall order | Enumerates(order, sources[path := e]) :: Survives(sources, path, e, order, size))
        <==> (exists t <- e.tabs :: t != []) && e.size <= size
             && (|sources[path := e]| <= MAX_SOURCES
                 || exists q <- sources :: q != path && LexLess(sources[q].updated, e.updated))
  {
    hide Enumerates, Survives, LexLess, NoBookmarks;
    SavedSurvivesIff(sources, path, e, size);
    AtMostOneMore(sources, path, e);
    var earlier := Earlier(sources, path, e.updated);
    if q :| q in sources && q != path && LexLess(sources[q].updated, e.updated) {
      assert q in earlier;
    } else {
      assert earlier == {};
    }
  }

  lemma AtMostOneMore(sources: Sources, path: Bytes, e: Entry)
    ensures |sources[path := e]| <= |sources| + 1
  {
    assert sources[path := e].Keys == sources.Keys + {path};
  }

  /** And it is lost under every order exactly when it has no bookmarks, or there
      is no room and fewer others than entries have to go have a stamp that is not
      later, as after a clock that went back. */
  lemma SavedIsLostIff(sources: Sources, path: Bytes, e: Entry)
    ensures (forall order | Enumerates(order, sources[path := e]) :: path !in Upserted(sources, path, e, order))
        <==> (forall t <- e.tabs :: t == [])
             || (|sources[path := e]| > MAX_SOURCES
                 && |NotLater(sources, path, e.updated)| < |sources[path := e]| - MAX_SOURCES)
  {
    SomeBookmark(e.tabs);
    hide Enumerates, Evicted, NotLater, NoBookmarks;
    if NoBookmarks(e.tabs)
       || (|sources[path := e]| > MAX_SOURCES
           && |NotLater(sources, path, e.updated)| < |sources[path := e]| - MAX_SOURCES) {
      forall order | Enumerates(order, sources[path := e]) ensures path !in Upserted(sources, path, e, order) {
        PlaceIsEnough(sources, path, e, order);
      }
    } else {
      var order := WinningOrder(sources, path, e);
      assert path in Upserted(sources, path, e, order);
    }
  }

  class Sidecar {
    var sources: Sources

    predicate WithinLimit()
      reads this
    {
      |sources| <= MAX_SOURCES
    }

    constructor ()
      ensures WithinLimit() && sources == map[]
    {
      sources := map[];
    }

    /** `load_or_empty` on a readable file: any number of entries. */
    constructor Load(loaded: Sources)
      ensures sources == loaded
    {
      sources := loaded;
    }

    method Restore(path: Bytes, currentInode: nat, currentSize: nat) returns (tabs: Option<seq<seq<nat>>>)
      modifies this
      ensures path in old(sources) && old(sources)[path].inode == currentInode
              && old(sources)[path].size <= currentSize ==>
                tabs == Some(old(sources)[path].tabs) && sources == old(sources)
      ensures path !in old(sources) || old(sources)[path].inode != currentInode
              || old(sources)[path].size > currentSize ==>
                tabs == None && sources == old(sources) - {path}
    {
      if path !in sources {
        assert sources - {path} == sources;
        return None;
      }
      var entry := sources[path];
      if entry.inode != currentInode {
        Forget(path);
        return None;
      }
      if entry.size > currentSize {
        Forget(path);
        return None;
      }
      return Some(entry.tabs);
    }

    method Forget(path: Bytes)
      modifies this
      ensures sources == old(sources) - {path} && |sources| <= old(|sources|)
    {
      FewerKeys(sources, path);
      sources := sources - {path};
    }

    /** `order` is the order in which the hash map lists its keys. */
    method Upsert(path: Bytes, inode: nat, size: nat, tabs: seq<seq<nat>>, now: Bytes, order: seq<Bytes>)
      requires Enumerates(order, sources[path := Entry(inode, size, tabs, now)])
      modifies this
      ensures !NoBookmarks(tabs) || old(WithinLimit()) ==> WithinLimit()
      ensures sources == Upserted(old(sources), path, Entry(inode, size, tabs, now), order)
    {
      var empty := NoBookmarks(tabs);
      if empty {
        Forget(path);
        return;
      }
      sources := sources[path := Entry(inode, size, tabs, now)];
      EvictIfOversize(order);
    }

    method EvictIfOversize(order: seq<Bytes>)
      requires Enumerates(order, sources)
      modifies this
      ensures WithinLimit() && sources == Evicted(old(sources), order)
    {
      hide NotAfter, SortPaths, Paths, Enumerates;
      EvictsOldest(sources, order);
      if |sources| <= MAX_SOURCES { return; }
      EnumerationFacts(sources, order);
      var pairs := SortPaths(order, sources);
      var toDrop := |sources| - MAX_SOURCES;
      ghost var all := sources;
      NoPaths(all, pairs[..0]);
      for i := 0 to toDrop
        invariant sources == all - Paths(pairs[..i])
      {
        OnePathMore(all, pairs, i);
        sources := sources - {pairs[i]};
      }
    }
  }

  lemma NoPaths(all: Sources, s: seq<Bytes>)
    requires s == []
    ensures all - Paths(s) == all
  {
  }

  lemma OnePathMore(all: Sources, pairs: seq<Bytes>, i: nat)
    requires i < |pairs|
    ensures all - Paths(pairs[..i]) - {pairs[i]} == all - Paths(pairs[..i + 1])
  {
    assert pairs[..i + 1] == pairs[..i] + [pairs[i]];
    assert Paths(pairs[..i + 1]) == Paths(pairs[..i]) + {pairs[i]};
  }

  lemma FewerKeys(sources: Sources, path: Bytes)
    ensures |sources - {path}| <= |sources|
  {
    assert (sources - {path}).Keys == sources.Keys - {path};
    if path in sources {
      assert |sources.Keys - {path}| == |sources.Keys| - 1;
    } else {
      assert sources.Keys - {path} == sources.Keys;
    }
  }

  // ----- whole runs -----

  /** A save at a whole second. */
  datatype Save = Save(path: Bytes, inode: nat, size: nat, tabs: seq<seq<nat>>, time: int, order: seq<Bytes>)

  predicate Printable(time: int) { YEAR_0 <= time * 1000000 < YEAR_10000 }

  function EntryOf(s: Save): Entry { Entry(s.inode, s.size, s.tabs, FormatUnixSeconds(s.time)) }

  predicate Possible(sources: Sources, saves: seq<Save>)
    decreases |saves|
  {
    saves != [] ==>
      Printable(saves[0].time) && Enumerates(saves[0].order, sources[saves[0].path := EntryOf(saves[0])])
      && Possible(Upserted(sources, saves[0].path, EntryOf(saves[0]), saves[0].order), saves[1..])
  }

  function Run(sources: Sources, saves: seq<Save>): Sources
    requires Possible(sources, saves)
    decreases |saves|
  {
    if saves == [] then sources
    else Run(Upserted(sources, saves[0].path, EntryOf(saves[0]), saves[0].order), saves[1..])
  }

  /** The last save of every path, without any limit: path to entry and time. */
  function Ideal(ideal: map<Bytes, Save>, saves: seq<Save>): map<Bytes, Save>
    decreases |saves|
  {
    if saves == [] then ideal
    else
      Ideal(IdealAfter(ideal, saves[0]), saves[1..])
  }

  // ----- how often a clock may go back -----

  /** Readings later than `t`, and readings not before it. */
  function LaterThan(times: seq<int>, t: int): nat {
    if times == [] then 0 else LaterThan(times[1..], t) + if times[0] > t then 1 else 0
  }

  function NotBefore(times: seq<int>, t: int): nat { LaterThan(times, t - 1) }

  /** No reading has more earlier ones that are later than itself than the sidecar
      has entries. */
  predicate SeldomBack(history: seq<int>, times: seq<int>)
    decreases |times|
  {
    times != [] ==> LaterThan(history, times[0]) <= MAX_SOURCES && SeldomBack(history + [times[0]], times[1..])
  }

  function Times(saves: seq<Save>): seq<int> {
    if saves == [] then [] else [saves[0].time] + Times(saves[1..])
  }

  lemma {:induction false} LaterThanSnoc(times: seq<int>, x: int, t: int)
    ensures LaterThan(times + [x], t) == LaterThan(times, t) + if x > t then 1 else 0
  {
    if times == [] {
      assert ([] + [x])[1..] == [];
    } else {
      assert (times + [x])[1..] == times[1..] + [x];
      LaterThanSnoc(times[1..], x, t);
    }
  }

  lemma {:induction false} FewerLater(times: seq<int>, t: int, u: int)
    requires t <= u
    ensures LaterThan(times, u) <= LaterThan(times, t)
  {
    if times != [] {
      FewerLater(times[1..], t, u);
    }
  }

  lemma {:induction false} NoneLater(times: seq<int>, t: int)
    requires forall x <- times :: x <= t
    ensures LaterThan(times, t) == 0
  {
    if times != [] {
      assert times[0] in times;
      forall x | x in times[1..] ensures x <= t {
        assert x in times;
      }
      NoneLater(times[1..], t);
    }
  }

  predicate ClockGoesUp(times: seq<int>) { forall i, j | 0 <= i < j < |times| :: times[i] <= times[j] }

  /** A clock that never goes back is no trouble. */
  lemma {:induction false} ForwardIsSeldomBack(history: seq<int>, times: seq<int>)
    requires ClockGoesUp(history + times)
    ensures SeldomBack(history, times)
    decreases |times|
  {
    if times != [] {
      var all := history + times;
      assert all == history + [times[0]] + times[1..];
      forall x | x in history ensures x <= times[0] {
        var i :| 0 <= i < |history| && history[i] == x;
        assert all[i] == x && all[|history|] == times[0];
      }
      NoneLater(history, times[0]);
      ForwardIsSeldomBack(history + [times[0]], times[1..]);
    }
  }

  // ----- what every run holds -----

  /** The sidecar holds last saves only, and whatever it lacks was saved no
      later than anything it holds. */
  predicate HoldsNewest(sources: Sources, ideal: map<Bytes, Save>) {
    AllPrintable(ideal) && LastSaves(sources, ideal) && NoneMissed(sources, ideal)
  }

  predicate AllPrintable(ideal: map<Bytes, Save>) { forall p <- ideal :: Printable(ideal[p].time) }

  predicate LastSaves(sources: Sources, ideal: map<Bytes, Save>) {
    forall p <- sources :: p in ideal && sources[p] == EntryOf(ideal[p])
  }

  predicate NoneMissed(sources: Sources, ideal: map<Bytes, Save>)
    requires LastSaves(sources, ideal)
  {
    forall d <- ideal, k <- sources :: d !in sources ==> ideal[d].time <= ideal[k].time
  }

  ghost function SavedSince(ideal: map<Bytes, Save>, t: int): set<Bytes> { set p | p in ideal && ideal[p].time >= t }

  /** Every last save is a reading of its own, and a save that was dropped has more
      readings not before it than the sidecar has entries. */
  ghost predicate Accounted(sources: Sources, ideal: map<Bytes, Save>, history: seq<int>) {
    (forall t: int :: |SavedSince(ideal, t)| <= NotBefore(history, t))
    && forall d <- ideal :: d !in sources ==> NotBefore(history, ideal[d].time) > MAX_SOURCES
  }

  lemma SavedOneMore(ideal: map<Bytes, Save>, s: Save, t: int)
    ensures |SavedSince(ideal[s.path := s], t)| <= |SavedSince(ideal, t)| + if s.time >= t then 1 else 0
    ensures |SavedSince(ideal - {s.path}, t)| <= |SavedSince(ideal, t)|
  {
    SubsetSize(SavedSince(ideal - {s.path}, t), SavedSince(ideal, t));
    if s.time >= t {
      SubsetSize(SavedSince(ideal[s.path := s], t), SavedSince(ideal, t) + {s.path});
    } else {
      SubsetSize(SavedSince(ideal[s.path := s], t), SavedSince(ideal, t));
    }
  }

  lemma SaveKeepsCounts(ideal: map<Bytes, Save>, history: seq<int>, s: Save)
    requires forall t: int :: |SavedSince(ideal, t)| <= NotBefore(history, t)
    ensures forall t: int :: |SavedSince(ideal[s.path := s], t)| <= NotBefore(history + [s.time], t)
    ensures forall t: int :: |SavedSince(ideal - {s.path}, t)| <= NotBefore(history + [s.time], t)
  {
    hide SavedSince;
    forall t: int
      ensures |SavedSince(ideal[s.path := s], t)| <= NotBefore(history + [s.time], t)
      ensures |SavedSince(ideal - {s.path}, t)| <= NotBefore(history + [s.time], t)
    {
      SavedOneMore(ideal, s, t);
      LaterThanSnoc(history, s.time, t - 1);
    }
  }

  lemma StampsOrder(s: int, t: int)
    requires Printable(s) && Printable(t)
    ensures NotAfter(FormatUnixSeconds(s), FormatUnixSeconds(t)) <==> s <= t
  {
    hide FormatUnixSeconds;
    UnixSecondsKeepOrder(t, s);
  }

  lemma SaveKeepsLast(sources: Sources, ideal: map<Bytes, Save>, s: Save, kept: Sources)
    requires AllPrintable(ideal) && LastSaves(sources, ideal) && Printable(s.time)
    requires forall p <- kept :: p in sources[s.path := EntryOf(s)] && kept[p] == sources[s.path := EntryOf(s)][p]
    ensures AllPrintable(ideal[s.path := s]) && LastSaves(sources[s.path := EntryOf(s)], ideal[s.path := s])
    ensures LastSaves(kept, ideal[s.path := s]) && forall k <- kept :: k in ideal[s.path := s]
  {
    hide EntryOf, Printable;
  }

  lemma SaveKeepsNewest(sources: Sources, ideal: map<Bytes, Save>, history: seq<int>, s: Save)
    requires HoldsNewest(sources, ideal) && Accounted(sources, ideal, history)
    requires LaterThan(history, s.time) <= MAX_SOURCES && Printable(s.time) && !NoBookmarks(s.tabs)
    requires Enumerates(s.order, sources[s.path := EntryOf(s)])
    ensures HoldsNewest(Evicted(sources[s.path := EntryOf(s)], s.order), ideal[s.path := s])
  {
    hide Evicted, EntryOf, NotAfter, Enumerates, NoBookmarks, Printable, LaterThan, AllPrintable, LastSaves, Accounted;
    var all, ideal' := sources[s.path := EntryOf(s)], ideal[s.path := s];
    EvictsOldest(all, s.order);
    var kept := Evicted(all, s.order);
    SaveKeepsLast(sources, ideal, s, kept);
    forall d, k | d in ideal' && k in kept && d !in kept ensures ideal'[d].time <= ideal'[k].time {
      if d in all {
        StampsInOrder(all, ideal', d, k);
      } else if k == s.path {
        MissingIsOlder(sources, ideal, history, s.time, d);
      } else {
        InBoth(sources, ideal, k);
      }
    }
  }

  lemma StampsInOrder(all: Sources, ideal: map<Bytes, Save>, d: Bytes, k: Bytes)
    requires AllPrintable(ideal) && LastSaves(all, ideal) && d in all && k in all
    requires NotAfter(all[d].updated, all[k].updated)
    ensures d in ideal && k in ideal && ideal[d].time <= ideal[k].time
  {
    hide FormatUnixSeconds, NotAfter, Printable;
    StampsOrder(ideal[d].time, ideal[k].time);
  }

  /** What is missing has too many readings behind it for a save of this time. */
  lemma MissingIsOlder(sources: Sources, ideal: map<Bytes, Save>, history: seq<int>, time: int, d: Bytes)
    requires Accounted(sources, ideal, history) && LaterThan(history, time) <= MAX_SOURCES
    requires d in ideal && d !in sources
    ensures ideal[d].time <= time
  {
    hide LaterThan;
    if ideal[d].time > time {
      FewerLater(history, time, ideal[d].time - 1);
    }
  }

  lemma InBoth(sources: Sources, ideal: map<Bytes, Save>, k: Bytes)
    requires LastSaves(sources, ideal) && k in sources
    ensures k in ideal
  {
  }

  lemma SaveKeepsAccount(sources: Sources, ideal: map<Bytes, Save>, history: seq<int>, s: Save)
    requires HoldsNewest(sources, ideal) && Accounted(sources, ideal, history)
    requires Enumerates(s.order, sources[s.path := EntryOf(s)])
    requires HoldsNewest(Evicted(sources[s.path := EntryOf(s)], s.order), ideal[s.path := s])
    ensures Accounted(Evicted(sources[s.path := EntryOf(s)], s.order), ideal[s.path := s], history + [s.time])
  {
    hide Evicted, FormatUnixSeconds, EntryOf, NotAfter, Enumerates, HoldsNewest, SavedSince, NotBefore;
    var all, ideal' := sources[s.path := EntryOf(s)], ideal[s.path := s];
    EvictsOldest(all, s.order);
    SaveKeepsCounts(ideal, history, s);
    var kept := Evicted(all, s.order);
    NewestHasAll(sources, ideal, s);
    NewestIsKnown(kept, ideal');
    forall d | d in ideal' && d !in kept ensures NotBefore(history + [s.time], ideal'[d].time) > MAX_SOURCES {
      if d in all {
        DroppedHasMany(all, kept, ideal', d);
      } else {
        assert d in ideal && d !in sources && ideal'[d] == ideal[d];
        NotBeforeSnoc(history, s.time, ideal[d].time);
      }
    }
  }

  lemma NewestHasAll(sources: Sources, ideal: map<Bytes, Save>, s: Save)
    requires HoldsNewest(sources, ideal)
    ensures forall d :: d in sources[s.path := EntryOf(s)] <==> d in sources || d == s.path
    ensures forall d :: d in ideal[s.path := s] <==> d in ideal || d == s.path
  {
  }

  lemma NewestIsKnown(kept: Sources, ideal: map<Bytes, Save>)
    requires HoldsNewest(kept, ideal)
    ensures forall k <- kept :: k in ideal
  {
    hide EntryOf, AllPrintable, NoneMissed;
  }

  /** A save that was dropped is no later than all those that were kept. */
  lemma DroppedHasMany(all: Sources, kept: Sources, ideal: map<Bytes, Save>, d: Bytes)
    requires |kept| == Min(|all|, MAX_SOURCES) && kept.Keys <= all.Keys && d in all && d !in kept
    requires HoldsNewest(kept, ideal) && d in ideal
    ensures |SavedSince(ideal, ideal[d].time)| > MAX_SOURCES
  {
    hide Printable, EntryOf;
    var many := kept.Keys + {d};
    if |all| <= MAX_SOURCES {
      SubsetOfSameSize(kept.Keys, all.Keys);
    }
    forall k | k in many ensures k in SavedSince(ideal, ideal[d].time) {
    }
    SubsetSize(many, SavedSince(ideal, ideal[d].time));
  }

  lemma RemovalKeepsNewest(sources: Sources, ideal: map<Bytes, Save>, s: Save)
    requires HoldsNewest(sources, ideal)
    ensures HoldsNewest(sources - {s.path}, ideal - {s.path}) && |sources - {s.path}| <= |sources|
  {
    hide EntryOf, Printable;
    FewerKeys(sources, s.path);
  }

  lemma RemovalKeepsAccount(sources: Sources, ideal: map<Bytes, Save>, history: seq<int>, s: Save)
    requires Accounted(sources, ideal, history)
    ensures Accounted(sources - {s.path}, ideal - {s.path}, history + [s.time])
  {
    hide SavedSince, NotBefore;
    SaveKeepsCounts(ideal, history, s);
    forall d | d in ideal - {s.path} && d !in sources - {s.path}
      ensures NotBefore(history + [s.time], ideal[d].time) > MAX_SOURCES
    {
      NotBeforeSnoc(history, s.time, ideal[d].time);
    }
  }

  lemma NotBeforeSnoc(history: seq<int>, x: int, t: int)
    ensures NotBefore(history + [x], t) >= NotBefore(history, t)
  {
    LaterThanSnoc(history, x, t - 1);
  }

  function IdealAfter(ideal: map<Bytes, Save>, s: Save): map<Bytes, Save> {
    if NoBookmarks(s.tabs) then ideal - {s.path} else ideal[s.path := s]
  }

  lemma StepKeepsNewest(sources: Sources, ideal: map<Bytes, Save>, history: seq<int>, s: Save)
    requires HoldsNewest(sources, ideal) && Accounted(sources, ideal, history)
    requires LaterThan(history, s.time) <= MAX_SOURCES && Printable(s.time)
    requires Enumerates(s.order, sources[s.path := EntryOf(s)])
    ensures var after := Upserted(sources, s.path, EntryOf(s), s.order);
            HoldsNewest(after, IdealAfter(ideal, s)) && Accounted(after, IdealAfter(ideal, s), history + [s.time])
            && (|sources| <= MAX_SOURCES ==> |after| <= MAX_SOURCES)
  {
    hide HoldsNewest, Accounted, Evicted, FormatUnixSeconds, NoBookmarks, LaterThan, Enumerates, NotAfter;
    if NoBookmarks(s.tabs) {
      RemovalKeepsNewest(sources, ideal, s);
      RemovalKeepsAccount(sources, ideal, history, s);
    } else {
      SaveKeepsNewest(sources, ideal, history, s);
      SaveKeepsAccount(sources, ideal, history, s);
      EvictsOldest(sources[s.path := EntryOf(s)], s.order);
    }
  }

  /** Over any run of saves under a clock that seldom goes back, in whatever order
      the hash map lists its keys: no saved source that is missing was saved
      after one that is held, and every held entry is the last save; a sidecar
      within its limit stays so. */
  lemma {:induction false} RunHoldsNewest(sources: Sources, ideal: map<Bytes, Save>, history: seq<int>,
      saves: seq<Save>)
    requires HoldsNewest(sources, ideal) && Accounted(sources, ideal, history)
    requires Possible(sources, saves) && SeldomBack(history, Times(saves))
    ensures HoldsNewest(Run(sources, saves), Ideal(ideal, saves))
    ensures |sources| <= MAX_SOURCES ==> |Run(sources, saves)| <= MAX_SOURCES
    decreases |saves|
  {
    hide HoldsNewest, Accounted, Upserted, FormatUnixSeconds, NoBookmarks, LaterThan, Enumerates, Printable;
    if saves != [] {
      var s := saves[0];
      assert Times(saves)[1..] == Times(saves[1..]);
      StepKeepsNewest(sources, ideal, history, s);
      var after := Upserted(sources, s.path, EntryOf(s), s.order);
      RunHoldsNewest(after, IdealAfter(ideal, s), history + [s.time], saves[1..]);
    }
  }

  /** Under any clock, when nothing was removed, as many as fit are held. */
  lemma {:induction false} RunHoldsAllThatFit(sources: Sources, ideal: map<Bytes, Save>, saves: seq<Save>)
    requires Possible(sources, saves) && sources.Keys <= ideal.Keys
    requires |sources| == Min(|ideal|, MAX_SOURCES) && forall s <- saves :: !NoBookmarks(s.tabs)
    ensures Run(sources, saves).Keys <= Ideal(ideal, saves).Keys
    ensures |Run(sources, saves)| == Min(|Ideal(ideal, saves)|, MAX_SOURCES)
    decreases |saves|
  {
    hide Evicted, FormatUnixSeconds, NoBookmarks, Enumerates, NotAfter;
    if saves != [] {
      var s := saves[0];
      assert s in saves;
      SaveFits(sources, ideal, s);
      RunHoldsAllThatFit(Upserted(sources, s.path, EntryOf(s), s.order), ideal[s.path := s], saves[1..]);
    }
  }

  lemma SaveFits(sources: Sources, ideal: map<Bytes, Save>, s: Save)
    requires sources.Keys <= ideal.Keys && |sources| == Min(|ideal|, MAX_SOURCES)
    requires Enumerates(s.order, sources[s.path := EntryOf(s)])
    ensures var kept := Evicted(sources[s.path := EntryOf(s)], s.order);
            kept.Keys <= ideal[s.path := s].Keys && |kept| == Min(|ideal[s.path := s]|, MAX_SOURCES)
  {
    hide Evicted, FormatUnixSeconds, NotAfter, Enumerates;
    EvictsOldest(sources[s.path := EntryOf(s)], s.order);
    SameGrowth(sources, ideal, s);
  }

  lemma SameGrowth(sources: Sources, ideal: map<Bytes, Save>, s: Save)
    requires sources.Keys <= ideal.Keys && |sources| == Min(|ideal|, MAX_SOURCES)
    ensures Min(|sources[s.path := EntryOf(s)]|, MAX_SOURCES) == Min(|ideal[s.path := s]|, MAX_SOURCES)
  {
    hide FormatUnixSeconds;
    assert sources[s.path := EntryOf(s)].Keys == sources.Keys + {s.path};
    assert ideal[s.path := s].Keys == ideal.Keys + {s.path};
    if |ideal| <= MAX_SOURCES {
      SubsetOfSameSize(sources.Keys, ideal.Keys);
    }
  }

  // ----- a clock that goes back too often -----

  lemma RunCons(sources: Sources, ideal: map<Bytes, Save>, s: Save, more: seq<Save>)
    ensures Possible(sources, [s] + more) <==>
              Printable(s.time) && Enumerates(s.order, sources[s.path := EntryOf(s)])
              && Possible(Upserted(sources, s.path, EntryOf(s), s.order), more)
    ensures Possible(sources, [s] + more) ==>
              Run(sources, [s] + more) == Run(Upserted(sources, s.path, EntryOf(s), s.order), more)
    ensures Ideal(ideal, [s] + more) == Ideal(IdealAfter(ideal, s), more) && Times([s] + more) == [s.time] + Times(more)
  {
    hide Upserted, EntryOf, IdealAfter, Enumerates, Printable;
    assert ([s] + more)[1..] == more;
  }

  lemma RunNothing(sources: Sources, ideal: map<Bytes, Save>, b: seq<Save>)
    ensures Possible(sources, []) && Run(sources, []) == sources && Ideal(ideal, []) == ideal && Times([]) == []
    ensures [] + b == b
  {
  }

  lemma {:induction false} RunAppend(sources: Sources, ideal: map<Bytes, Save>, a: seq<Save>, b: seq<Save>)
    requires Possible(sources, a) && Possible(Run(sources, a), b)
    ensures Possible(sources, a + b) && Run(sources, a + b) == Run(Run(sources, a), b)
    ensures Ideal(ideal, a + b) == Ideal(Ideal(ideal, a), b) && Times(a + b) == Times(a) + Times(b)
    decreases |a|
  {
    hide *;
    if a == [] {
      RunNothing(sources, ideal, b);
    } else {
      var s, more := a[0], a[1..];
      FirstAndRest(s, more, a, b);
      RunCons(sources, ideal, s, more);
      RunCons(sources, ideal, s, more + b);
      RunAppend(Upserted(sources, s.path, EntryOf(s), s.order), IdealAfter(ideal, s), more, b);
      TimesRegrouped(s.time, Times(more), Times(b));
    }
  }

  lemma FirstAndRest(s: Save, more: seq<Save>, a: seq<Save>, b: seq<Save>)
    requires a != [] && s == a[0] && more == a[1..]
    ensures a == [s] + more && a + b == [s] + (more + b)
  {
  }

  lemma TimesRegrouped(t: int, x: seq<int>, y: seq<int>)
    ensures [t] + (x + y) == [t] + x + y
  {
  }

  lemma {:induction false} FreshPath(keys: set<Bytes>) returns (p: Bytes)
    ensures forall q <- keys :: |q| < |p|
    decreases |keys|
  {
    p := "x";
    if keys != {} {
      var q :| q in keys;
      var r := FreshPath(keys - {q});
      p := if |q| < |r| then r else q + "x";
    }
  }

  /** A save of a path under some order of the hash map. */
  lemma SaveOf(sources: Sources, path: Bytes, tabs: seq<seq<nat>>, time: int) returns (s: Save)
    ensures s.path == path && s.tabs == tabs && s.time == time
    ensures Enumerates(s.order, sources[path := EntryOf(s)])
  {
    hide FormatUnixSeconds;
    var e := Entry(0, 0, tabs, FormatUnixSeconds(time));
    var order := Listing(sources[path := e].Keys);
    s := Save(path, 0, 0, tabs, time, order);
  }

  lemma OneSave(sources: Sources, s: Save)
    requires Printable(s.time) && Enumerates(s.order, sources[s.path := EntryOf(s)])
    ensures Possible(sources, [s]) && Run(sources, [s]) == Upserted(sources, s.path, EntryOf(s), s.order)
    ensures Times([s]) == [s.time] && forall ideal :: Ideal(ideal, [s]) == IdealAfter(ideal, s)
  {
    hide Upserted, FormatUnixSeconds, Enumerates, Printable, IdealAfter;
    assert [s][1..] == [];
  }

  /** Removals of a path that nobody saved change nothing. */
  lemma {:induction false} IdleSaves(sources: Sources, ideal: map<Bytes, Save>, times: seq<int>)
    returns (saves: seq<Save>)
    requires sources.Keys <= ideal.Keys && forall x <- times :: Printable(x)
    ensures Times(saves) == times && Possible(sources, saves)
    ensures Run(sources, saves) == sources && Ideal(ideal, saves) == ideal
    decreases |times|
  {
    hide FormatUnixSeconds, Enumerates, Printable;
    saves := [];
    if times != [] {
      TailPrintable(times);
      var path := FreshPath(ideal.Keys);
      var s := SaveOf(sources, path, [], times[0]);
      var rest := IdleSaves(sources, ideal, times[1..]);
      assert sources - {path} == sources && ideal - {path} == ideal;
      saves := [s] + rest;
      assert saves[1..] == rest;
    }
  }

  ghost predicate Filled(sources: Sources, ideal: map<Bytes, Save>, t: int) {
    sources.Keys <= ideal.Keys && |sources| == Min(|ideal|, MAX_SOURCES) && forall p <- ideal :: ideal[p].time > t
  }

  lemma FilledOneMore(sources: Sources, ideal: map<Bytes, Save>, t: int, s: Save)
    requires Filled(sources, ideal, t) && s.path !in ideal && s.time > t && !NoBookmarks(s.tabs)
    requires Enumerates(s.order, sources[s.path := EntryOf(s)])
    ensures Filled(Upserted(sources, s.path, EntryOf(s), s.order), IdealAfter(ideal, s), t)
    ensures |IdealAfter(ideal, s)| == |ideal| + 1
  {
    hide Evicted, FormatUnixSeconds, NoBookmarks, Enumerates;
    SaveFits(sources, ideal, s);
    assert ideal[s.path := s].Keys == ideal.Keys + {s.path};
  }

  lemma FillOne(sources: Sources, ideal: map<Bytes, Save>, time: int, t: int) returns (s: Save)
    requires Filled(sources, ideal, t)
    ensures s.time == time && Enumerates(s.order, sources[s.path := EntryOf(s)])
    ensures Filled(Upserted(sources, s.path, EntryOf(s), s.order), IdealAfter(ideal, s), t)
    ensures |IdealAfter(ideal, s)| == |ideal| + if time > t then 1 else 0
  {
    hide EntryOf, Enumerates, Upserted, IdealAfter, Filled, NoBookmarks;
    var path := FreshPath(ideal.Keys);
    s := SaveOf(sources, path, if time > t then [[0]] else [], time);
    assert path !in ideal;
    if time > t {
      OneBookmark();
      FilledOneMore(sources, ideal, t, s);
    } else {
      NothingSaved(sources, ideal, s, t);
    }
  }

  lemma OneBookmark()
    ensures !NoBookmarks([[0]]) && NoBookmarks([])
  {
    assert [0] in [[0]];
  }

  lemma NothingSaved(sources: Sources, ideal: map<Bytes, Save>, s: Save, t: int)
    requires Filled(sources, ideal, t) && s.path !in ideal && s.tabs == []
    requires Enumerates(s.order, sources[s.path := EntryOf(s)])
    ensures Upserted(sources, s.path, EntryOf(s), s.order) == sources && IdealAfter(ideal, s) == ideal
  {
    hide FormatUnixSeconds, Enumerates, Evicted;
    assert sources - {s.path} == sources && ideal - {s.path} == ideal;
  }

  /** Every reading later than `t` becomes the save of a new path. */
  lemma {:induction false} FillSaves(sources: Sources, ideal: map<Bytes, Save>, times: seq<int>, t: int)
    returns (saves: seq<Save>)
    requires Filled(sources, ideal, t) && forall x <- times :: Printable(x)
    ensures Times(saves) == times && Possible(sources, saves)
    ensures Filled(Run(sources, saves), Ideal(ideal, saves), t)
    ensures |Ideal(ideal, saves)| == |ideal| + LaterThan(times, t)
    decreases |times|
  {
    hide Filled, Enumerates, Printable, Upserted, IdealAfter, Possible, Run, Ideal, Times, EntryOf, LaterThan;
    saves := [];
    LaterThanFirst(times, t);
    if times == [] {
      RunNothing(sources, ideal, []);
    } else {
      TailPrintable(times);
      var s := FillOne(sources, ideal, times[0], t);
      OneSave(sources, s);
      var rest := FillSaves(Run(sources, [s]), Ideal(ideal, [s]), times[1..], t);
      RunAppend(sources, ideal, [s], rest);
      saves := [s] + rest;
      assert [times[0]] + times[1..] == times;
    }
  }

  lemma LaterThanFirst(times: seq<int>, t: int)
    ensures LaterThan(times, t) == if times == [] then 0 else LaterThan(times[1..], t) + if times[0] > t then 1 else 0
  {
  }

  lemma TailPrintable(times: seq<int>)
    requires times != [] && forall x <- times :: Printable(x)
    ensures Printable(times[0]) && forall x <- times[1..] :: Printable(x)
  {
    hide Printable;
    assert times[0] in times;
    forall x | x in times[1..] ensures Printable(x) {
      assert x in times;
    }
  }

  /** A full sidecar that lacks a later save, and an earlier save of a path it has. */
  lemma SaveBreaks(sources: Sources, ideal: map<Bytes, Save>, t: int) returns (s: Save)
    requires Filled(sources, ideal, t) && |ideal| > MAX_SOURCES
    ensures s.time == t && Enumerates(s.order, sources[s.path := EntryOf(s)])
    ensures var after := Upserted(sources, s.path, EntryOf(s), s.order);
            !HoldsNewest(after, IdealAfter(ideal, s)) && after.Keys <= IdealAfter(ideal, s).Keys
  {
    hide FormatUnixSeconds, Enumerates, Printable, Evicted;
    assert sources.Keys != {};
    var p :| p in sources.Keys;
    var d :| d in ideal.Keys - sources.Keys by { SmallerSet(sources.Keys, ideal.Keys); }
    s := SaveOf(sources, p, [[0]], t);
    assert !NoBookmarks(s.tabs) by { assert [0] in s.tabs; }
    var all := sources[p := EntryOf(s)];
    assert all.Keys == sources.Keys;
    assert |all| == |all.Keys| == |sources.Keys| == |sources|;
    AllKept(all, s.order);
    assert d in IdealAfter(ideal, s) && d !in all && p in all;
  }

  lemma SmallerSet(a: set<Bytes>, b: set<Bytes>)
    requires |a| < |b|
    ensures exists x :: x in b - a
  {
    SubsetSize(b, a + (b - a));
    assert b - a == {} ==> a + (b - a) == a;
    var x :| x in b - a;
  }

  lemma {:induction false} NotSeldom(history: seq<int>, times: seq<int>) returns (k: nat)
    requires !SeldomBack(history, times)
    ensures k < |times| && LaterThan(history + times[..k], times[k]) > MAX_SOURCES
    decreases |times|
  {
    if LaterThan(history, times[0]) > MAX_SOURCES {
      k := 0;
      assert history + times[..0] == history;
    } else {
      var j := NotSeldom(history + [times[0]], times[1..]);
      k := j + 1;
      assert history + [times[0]] + times[1..][..j] == history + times[..k];
    }
  }

  lemma BreakingEnd(sources: Sources, ideal: map<Bytes, Save>, t: int, times: seq<int>) returns (saves: seq<Save>)
    requires Filled(sources, ideal, t) && |ideal| > MAX_SOURCES && Printable(t) && forall x <- times :: Printable(x)
    ensures Times(saves) == [t] + times && Possible(sources, saves)
    ensures !HoldsNewest(Run(sources, saves), Ideal(ideal, saves))
  {
    hide HoldsNewest, Possible, Run, Ideal, Times, Upserted, IdealAfter, Printable, Filled, Enumerates;
    var s := SaveBreaks(sources, ideal, t);
    OneSave(sources, s);
    var back := IdleSaves(Run(sources, [s]), Ideal(ideal, [s]), times);
    RunAppend(sources, ideal, [s], back);
    saves := [s] + back;
  }

  lemma PartsPrintable(times: seq<int>, k: nat)
    requires k < |times| && forall x <- times :: Printable(x)
    ensures (forall x <- times[..k] :: Printable(x)) && (forall x <- times[k + 1..] :: Printable(x))
    ensures Printable(times[k])
  {
    hide Printable;
    forall x | x in times[..k] || x in times[k + 1..] || x == times[k] ensures Printable(x) {
      assert x in times;
    }
  }

  lemma BreakingRun(times: seq<int>) returns (saves: seq<Save>)
    requires !SeldomBack([], times) && forall x <- times :: Printable(x)
    ensures Times(saves) == times && Possible(map[], saves)
    ensures !HoldsNewest(Run(map[], saves), Ideal(map[], saves))
  {
    hide HoldsNewest, Possible, Run, Ideal, Times, Printable, Filled, LaterThan, SeldomBack;
    var k := NotSeldom([], times);
    assert [] + times[..k] == times[..k];
    PartsPrintable(times, k);
    StartsFilled(times[k]);
    var front := FillSaves(map[], map[], times[..k], times[k]);
    var back := BreakingEnd(Run(map[], front), Ideal(map[], front), times[k], times[k + 1..]);
    RunAppend(map[], map[], front, back);
    saves := front + back;
    assert times[..k] + ([times[k]] + times[k + 1..]) == times;
  }

  lemma StartsFilled(t: int)
    ensures Filled(map[], map[], t)
  {
  }

  lemma StartsRight()
    ensures HoldsNewest(map[], map[]) && Accounted(map[], map[], [])
  {
    forall t: int ensures SavedSince(map[], t) == {} {
    }
  }

  /** For given times of the saves: what a new sidecar holds at the end is the
      newest, whatever is saved and removed and however the hash map lists its
      keys, exactly when the clock seldom goes back. */
  lemma NewestIff(times: seq<int>)
    requires forall x <- times :: Printable(x)
    ensures (forall saves: seq<Save> | Times(saves) == times && Possible(map[], saves) ::
               HoldsNewest(Run(map[], saves), Ideal(map[], saves)))
        <==> SeldomBack([], times)
  {
    hide HoldsNewest, Possible, Run, Ideal, Times, Printable, SeldomBack, Accounted;
    if SeldomBack([], times) {
      StartsRight();
      forall saves: seq<Save> | Times(saves) == times && Possible(map[], saves)
        ensures HoldsNewest(Run(map[], saves), Ideal(map[], saves))
      {
        RunHoldsNewest(map[], map[], [], saves);
      }
    } else {
      var saves := BreakingRun(times);
    }
  }

  lemma SubsetOfSameSize(a: set<Bytes>, b: set<Bytes>)
    requires a <= b && |a| == |b|
    ensures a == b
  {
    assert |b - a| == |b| - |a|;
  }
}
