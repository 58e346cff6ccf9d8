/** Repeat collapsing: the first occurrence of a key goes out, repeats inside
    its window are counted and summarised when the window closes. */
module Collapse {
  import opened Common

  /** Hard cap on tracked keys. */
  const MAX_KEYS := 10_000

  datatype Verdict = Emit | Suppress

  datatype Summary<T> = Summary(key: string, count: nat, sample: T, last: T)

  datatype Entry<T> = Entry(start: int, count: nat, sample: T, last: Option<T>)

  type Table<T> = map<string, Entry<T>>

  predicate Expired<T>(e: Entry<T>, window: int, now: int) { SaturatingSub(now, e.start) >= window }

  function Gone<T>(m: Table<T>, window: int, now: int): Table<T> {
    map k | k in m && Expired(m[k], window, now) :: m[k]
  }

  function Kept<T>(m: Table<T>, window: int, now: int): Table<T> {
    map k | k in m && !Expired(m[k], window, now) :: m[k]
  }

  /** The entries of some keys. */
  function Part<T>(m: Table<T>, keys: set<string>): Table<T> { map k | k in m && k in keys :: m[k] }

  function SummaryOf<T>(key: string, e: Entry<T>): Summary<T> {
    Summary(key, e.count, e.sample, if e.last.Some? then e.last.value else e.sample)
  }

  /** `added` reports every entry of `gone` that held something back, once, in
      whatever order the hash map gave. */
  ghost predicate Reports<T(!new)>(added: seq<Summary<T>>, gone: Table<T>) {
    (forall s | s in added :: s.key in gone && gone[s.key].count > 0 && s == SummaryOf(s.key, gone[s.key]))
    && (forall k | k in gone && gone[k].count > 0 :: SummaryOf(k, gone[k]) in added)
    && (forall i, j | 0 <= i < j < |added| :: added[i].key != added[j].key)
  }

  // ----- what an offer does to the table -----

  /** The entries an emitting offer closes: the key's own stale one, and, when
      the rest is full, every expired one. */
  function ClosedBy<T>(m: Table<T>, window: int, key: string, now: int): Table<T> {
    var rest := m - {key};
    Own(m, key) + (if |rest| >= MAX_KEYS then Gone(rest, window, now) else map[])
  }

  function RoomFor<T>(m: Table<T>, window: int, key: string, now: int): Table<T> {
    var rest := m - {key};
    if |rest| >= MAX_KEYS then Kept(rest, window, now) else rest
  }

  /** The offer counts as a repeat: the key is open and its window not over. */
  predicate Repeats<T>(m: Table<T>, window: int, key: string, now: int) {
    window != 0 && key in m && !Expired(m[key], window, now)
  }

  function AfterOffer<T>(m: Table<T>, window: int, key: string, payload: T, now: int): Table<T> {
    if window == 0 then m
    else if Repeats(m, window, key, now) then
      m[key := m[key].(count := m[key].count + 1, last := Some(payload))]
    else
      var room := RoomFor(m, window, key, now);
      if |room| >= MAX_KEYS then room else room[key := Entry(now, 0, payload, None)]
  }

  class Collapser<T(!new)> {
    var window: int
    var entries: Table<T>
    var closed: seq<Summary<T>>

    /** The table respects its cap, and no summary is empty. */
    ghost predicate Valid()
      reads this
    {
      0 <= window <= I64_MAX && |entries| <= MAX_KEYS && forall s | s in closed :: s.count > 0
    }

    /** `window` in microseconds, cut to 64 bits. */
    constructor (window: nat)
      ensures Valid() && this.window == Min(window, I64_MAX) && entries == map[] && closed == []
    {
      this.window := Min(window, I64_MAX);
      entries := map[];
      closed := [];
    }

    method Close(key: string, e: Entry<T>)
      modifies this`closed
      ensures closed == old(closed) + if e.count > 0 then [SummaryOf(key, e)] else []
      ensures forall s | s in closed :: s in old(closed) || s.count > 0
    {
      if e.count > 0 {
        closed := closed + [SummaryOf(key, e)];
      }
    }

    /** Remove and report a set of keys, in any order. */
    method CloseAll(done: set<string>)
      requires done <= entries.Keys
      modifies this`entries, this`closed
      ensures entries == old(entries) - done
      ensures old(closed) <= closed
      ensures Reports(closed[|old(closed)|..], Part(old(entries), done))
    {
      hide Reports, SummaryOf, Part;
      ghost var was, before := entries, closed;
      var todo := done;
      NothingReported(closed[|before|..], was, done - todo);
      while todo != {}
        invariant todo <= done && entries == was - (done - todo)
        invariant before <= closed
        invariant Reports(closed[|before|..], Part(was, done - todo))
        decreases todo
      {
        var k :| k in todo;
        var e := entries[k];
        ghost var added := closed[|before|..];
        entries := entries - {k};
        Close(k, e);
        PartGrows(was, done - todo, k);
        ReportsOneMore(added, Part(was, done - todo), k, e);
        assert done - (todo - {k}) == done - todo + {k};
        assert closed[|before|..] == added + if e.count > 0 then [SummaryOf(k, e)] else [];
        todo := todo - {k};
      }
      assert done - todo == done;
    }

    method Expire(now: int)
      requires Valid()
      modifies this`entries, this`closed
      ensures Valid()
      ensures entries == Kept(old(entries), window, now) && entries.Keys <= old(entries).Keys
      ensures old(closed) <= closed
      ensures Reports(closed[|old(closed)|..], Gone(old(entries), window, now))
    {
      var done := set k | k in entries && Expired(entries[k], window, now);
      ghost var was := entries;
      CloseAll(done);
      assert entries == Kept(was, window, now);
      assert Part(was, done) == Gone(was, window, now);
      SmallerTable(was, entries);
      AllCounted(old(closed), closed, Gone(was, window, now));
    }

    /** Summaries for the windows that have closed by `now`. */
    method Flush(now: int) returns (out: seq<Summary<T>>)
      requires Valid()
      modifies this`entries, this`closed
      ensures Valid() && closed == []
      ensures entries == Kept(old(entries), window, now)
      ensures old(closed) <= out
      ensures Reports(out[|old(closed)|..], Gone(old(entries), window, now))
      ensures forall s | s in out :: s.count > 0
    {
      Expire(now);
      out := closed;
      closed := [];
    }

    /** Close every window. */
    method Finish() returns (out: seq<Summary<T>>)
      requires Valid()
      modifies this`entries, this`closed
      ensures Valid() && closed == [] && entries == map[]
      ensures old(closed) <= out
      ensures Reports(out[|old(closed)|..], old(entries))
      ensures forall s | s in out :: s.count > 0
    {
      ghost var was := entries;
      CloseAll(entries.Keys);
      assert Part(was, was.Keys) == was;
      AllCounted(old(closed), closed, was);
      out := closed;
      closed := [];
    }

    method Offer(key: string, payload: T, now: int) returns (v: Verdict)
      requires Valid()
      modifies this`entries, this`closed
      ensures Valid()
      ensures v == if Repeats(old(entries), window, key, now) then Suppress else Emit
      ensures entries == AfterOffer(old(entries), window, key, payload, now)
      ensures old(closed) <= closed
      ensures v.Suppress? || window == 0 ==> closed == old(closed)
      ensures v.Emit? && window != 0 ==> Reports(closed[|old(closed)|..], ClosedBy(old(entries), window, key, now))
    {
      hide Reports, SaturatingSub, ClosedBy;
      if window == 0 {
        return Emit;
      }
      if key in entries {
        var e := entries[key];
        if SaturatingSub(now, e.start) < window {
          ghost var was := entries;
          entries := entries[key := e.(count := e.count + 1, last := Some(payload))];
          SmallerTable(was, entries);
          return Suppress;
        }
      }
      CloseOwn(key);
      MakeRoom(key, now, old(entries), old(closed));
      if |entries| >= MAX_KEYS {
        return Emit;
      }
      OneMoreKey(entries, key, Entry(now, 0, payload, None));
      entries := entries[key := Entry(now, 0, payload, None)];
      return Emit;
    }

    /** Close the key's own entry, if it has one. */
    method CloseOwn(key: string)
      requires Valid()
      modifies this`entries, this`closed
      ensures Valid() && entries == old(entries) - {key}
      ensures old(closed) <= closed && Reports(closed[|old(closed)|..], Own(old(entries), key))
    {
      ghost var was, before := entries, closed;
      if key in entries {
        var e := entries[key];
        entries := entries - {key};
        Close(key, e);
      }
      assert entries == was - {key};
      SmallerTable(was, entries);
      OwnReport(closed[|before|..], key, was);
    }

    /** Expire when the table is full; `was` and `before` are the table and the
        reports from before the key's own entry was closed. */
    method MakeRoom(key: string, now: int, ghost was: Table<T>, ghost before: seq<Summary<T>>)
      requires Valid() && entries == was - {key}
      requires before <= closed && Reports(closed[|before|..], Own(was, key))
      modifies this`entries, this`closed
      ensures Valid() && entries == RoomFor(was, window, key, now) && key !in entries
      ensures before <= closed && Reports(closed[|before|..], ClosedBy(was, window, key, now))
    {
      hide Reports, Own, Gone, Kept, SummaryOf, RoomFor, ClosedBy;
      ghost var first := closed[|before|..];
      RoomCases(was, window, key, now);
      if |entries| >= MAX_KEYS {
        ghost var middle := closed;
        Expire(now);
        assert middle == before + first;
        JoinReports(was, window, key, now, before, first, closed);
      }
    }
  }

  lemma PlusNothing<T>(own: Table<T>)
    ensures own + map[] == own
  {
  }

  lemma RoomCases<T>(m: Table<T>, window: int, key: string, now: int)
    ensures |m - {key}| >= MAX_KEYS ==> RoomFor(m, window, key, now) == Kept(m - {key}, window, now)
    ensures |m - {key}| < MAX_KEYS ==> RoomFor(m, window, key, now) == m - {key}
                                       && ClosedBy(m, window, key, now) == Own(m, key)
  {
    hide RoomFor, ClosedBy;
    RoomOf(m, window, key, now);
    ClosedOf(m, window, key, now);
  }

  lemma RoomOf<T>(m: Table<T>, window: int, key: string, now: int)
    ensures RoomFor(m, window, key, now)
         == if |m - {key}| >= MAX_KEYS then Kept(m - {key}, window, now) else m - {key}
  {
    hide Kept;
  }

  lemma ClosedOf<T>(m: Table<T>, window: int, key: string, now: int)
    ensures |m - {key}| < MAX_KEYS ==> ClosedBy(m, window, key, now) == Own(m, key)
  {
    hide Gone, Own;
    PlusNothing(Own(m, key));
  }

  lemma OneMoreKey<T>(m: Table<T>, key: string, e: Entry<T>)
    requires key !in m
    ensures |m[key := e]| == |m| + 1
  {
    assert m[key := e].Keys == m.Keys + {key};
    assert |m[key := e]| == |m[key := e].Keys| && |m| == |m.Keys|;
  }

  /** The key's own entry, as a table. */
  function Own<T>(m: Table<T>, key: string): Table<T> { if key in m then map[key := m[key]] else map[] }

  lemma JoinReports<T(!new)>(m: Table<T>, window: int, key: string, now: int,
                             before: seq<Summary<T>>, first: seq<Summary<T>>, closed: seq<Summary<T>>)
    requires |m - {key}| >= MAX_KEYS
    requires Reports(first, Own(m, key)) && before + first <= closed
    requires Reports(closed[|before + first|..], Gone(m - {key}, window, now))
    ensures before <= closed && Reports(closed[|before|..], ClosedBy(m, window, key, now))
  {
    hide Reports;
    var second := closed[|before + first|..];
    assert closed[|before|..] == first + second;
    ReportsConcat(first, Own(m, key), second, Gone(m - {key}, window, now));
  }

  lemma NothingReported<T(!new)>(added: seq<Summary<T>>, m: Table<T>, keys: set<string>)
    requires added == [] && keys == {}
    ensures Reports(added, Part(m, keys))
  {
  }

  lemma PartGrows<T>(m: Table<T>, keys: set<string>, k: string)
    requires k in m && k !in keys
    ensures Part(m, keys + {k}) == Part(m, keys)[k := m[k]] && k !in Part(m, keys)
  {
  }

  lemma SmallerTable<T>(m: Table<T>, n: Table<T>)
    requires n.Keys <= m.Keys
    ensures |n| <= |m|
  {
    SubsetSize(n.Keys, m.Keys);
    assert |n| == |n.Keys| && |m| == |m.Keys|;
  }

  lemma {:induction false} SubsetSize(a: set<string>, b: set<string>)
    requires a <= b
    ensures |a| <= |b|
  {
    if a != {} {
      var x :| x in a;
      SubsetSize(a - {x}, b - {x});
    }
  }

  lemma AllCounted<T(!new)>(before: seq<Summary<T>>, after: seq<Summary<T>>, gone: Table<T>)
    requires before <= after && Reports(after[|before|..], gone)
    requires forall s | s in before :: s.count > 0
    ensures forall s | s in after :: s.count > 0
  {
    assert after == before + after[|before|..];
  }

  lemma ReportsOneMore<T(!new)>(added: seq<Summary<T>>, gone: Table<T>, k: string, e: Entry<T>)
    requires Reports(added, gone) && k !in gone
    ensures Reports(added + if e.count > 0 then [SummaryOf(k, e)] else [], gone[k := e])
  {
    var more := added + if e.count > 0 then [SummaryOf(k, e)] else [];
    assert forall i | 0 <= i < |added| :: added[i] in added;
  }

  lemma OwnReport<T(!new)>(added: seq<Summary<T>>, key: string, m: Table<T>)
    requires added == if key in m && m[key].count > 0 then [SummaryOf(key, m[key])] else []
    ensures Reports(added, Own(m, key))
  {
  }

  lemma ReportsConcat<T(!new)>(a: seq<Summary<T>>, m: Table<T>, b: seq<Summary<T>>, n: Table<T>)
    requires Reports(a, m) && Reports(b, n) && m.Keys !! n.Keys
    ensures Reports(a + b, m + n)
  {
    assert forall i | 0 <= i < |a| :: a[i] in a;
    assert forall i | 0 <= i < |b| :: b[i] in b;
  }

  // ----- counting what is held back and what is reported -----

  ghost function AnyKey<T>(m: Table<T>): (k: string)
    requires m != map[]
    ensures k in m
  {
    var k :| k in m;
    k
  }

  /** Repeats held back in a table, over the keys picked. */
  ghost function Held<T>(m: Table<T>, pick: string -> bool): nat
    decreases |m|
  {
    if m == map[] then 0 else
    var k := AnyKey(m);
    (if pick(k) then m[k].count else 0) + Held(m - {k}, pick)
  }

  /** Repeats reported by summaries, over the keys picked. */
  function Reported<T>(s: seq<Summary<T>>, pick: string -> bool): nat {
    if s == [] then 0 else (if pick(s[0].key) then s[0].count else 0) + Reported(s[1..], pick)
  }

  lemma {:induction false} HeldRemove<T>(m: Table<T>, k: string, pick: string -> bool)
    requires k in m
    ensures Held(m, pick) == (if pick(k) then m[k].count else 0) + Held(m - {k}, pick)
    decreases |m|
  {
    var k0 := AnyKey(m);
    if k != k0 {
      HeldRemove(m - {k0}, k, pick);
      HeldRemove(m - {k}, k0, pick);
      assert m - {k0} - {k} == m - {k} - {k0};
    }
  }

  lemma HeldUpdate<T>(m: Table<T>, k: string, e: Entry<T>, pick: string -> bool)
    ensures Held(m[k := e], pick) == (if pick(k) then e.count else 0) + Held(m - {k}, pick)
  {
    HeldRemove(m[k := e], k, pick);
    assert m[k := e] - {k} == m - {k};
  }

  lemma UnionMinus<T>(m: Table<T>, n: Table<T>, k: string)
    requires m.Keys !! n.Keys && k in m
    ensures (m + n) - {k} == (m - {k}) + n && k in m + n && (m + n)[k] == m[k]
    ensures (m - {k}).Keys !! n.Keys && |m - {k}| < |m|
  {
    MinusKeys(m, k);
    UnionMinusKey(m, n, k);
  }

  lemma MinusKeys<T>(m: Table<T>, k: string)
    requires k in m
    ensures (m - {k}).Keys == m.Keys - {k} && |m - {k}| < |m|
  {
    assert (m - {k}).Keys == m.Keys - {k};
  }

  lemma UnionMinusKey<T>(m: Table<T>, n: Table<T>, k: string)
    requires k !in n
    ensures (m + n) - {k} == (m - {k}) + n
  {
  }

  lemma {:induction false} HeldUnion<T>(m: Table<T>, n: Table<T>, pick: string -> bool)
    requires m.Keys !! n.Keys
    ensures Held(m + n, pick) == Held(m, pick) + Held(n, pick)
    decreases |m|
  {
    hide Held;
    if m == map[] {
      HeldNothing(m, pick);
      assert m + n == n;
    } else {
      var k := AnyKey(m);
      UnionMinus(m, n, k);
      HeldUnion(m - {k}, n, pick);
      HeldRemove(m, k, pick);
      HeldRemove(m + n, k, pick);
    }
  }

  lemma HeldSplit<T>(m: Table<T>, window: int, now: int, pick: string -> bool)
    ensures Held(m, pick) == Held(Kept(m, window, now), pick) + Held(Gone(m, window, now), pick)
  {
    HeldUnion(Kept(m, window, now), Gone(m, window, now), pick);
    assert Kept(m, window, now) + Gone(m, window, now) == m;
  }

  /** The summaries of a set of entries report exactly what those held back. */
  lemma {:induction false} ReportsAll<T(!new)>(added: seq<Summary<T>>, gone: Table<T>, pick: string -> bool)
    requires Reports(added, gone)
    ensures Reported(added, pick) == Held(gone, pick)
    decreases |added|
  {
    if added == [] {
      HeldNothing(gone, pick);
    } else {
      var s := added[0];
      assert s in added;
      HeldRemove(gone, s.key, pick);
      assert Reports(added[1..], gone - {s.key}) by {
        assert forall i | 0 <= i < |added[1..]| :: added[1..][i] == added[i + 1];
        forall k | k in gone - {s.key} && gone[k].count > 0
          ensures SummaryOf(k, gone[k]) in added[1..]
        {
          assert SummaryOf(k, gone[k]) in added;
        }
      }
      ReportsAll(added[1..], gone - {s.key}, pick);
    }
  }

  lemma {:induction false} HeldNothing<T>(gone: Table<T>, pick: string -> bool)
    requires forall k | k in gone :: gone[k].count == 0
    ensures Held(gone, pick) == 0
    decreases |gone|
  {
    if gone != map[] {
      HeldNothing(gone - {AnyKey(gone)}, pick);
    }
  }

  lemma {:induction false} ReportedConcat<T>(a: seq<Summary<T>>, b: seq<Summary<T>>, pick: string -> bool)
    ensures Reported(a + b, pick) == Reported(a, pick) + Reported(b, pick)
  {
    if a == [] {
      assert a + b == b;
    } else {
      assert (a + b)[1..] == a[1..] + b;
      ReportedConcat(a[1..], b, pick);
    }
  }

  lemma RepeatIsHeld<T>(m: Table<T>, key: string, payload: T, pick: string -> bool)
    requires key in m
    ensures Held(m[key := m[key].(count := m[key].count + 1, last := Some(payload))], pick)
         == Held(m, pick) + if pick(key) then 1 else 0
  {
    hide Held;
    HeldRemove(m, key, pick);
    HeldUpdate(m, key, m[key].(count := m[key].count + 1, last := Some(payload)), pick);
  }

  lemma RoomSplits<T>(m: Table<T>, window: int, key: string, now: int, pick: string -> bool)
    ensures Held(RoomFor(m, window, key, now), pick) + Held(ClosedBy(m, window, key, now), pick) == Held(m, pick)
    ensures key !in RoomFor(m, window, key, now)
  {
    hide Held, Kept, Gone, Own;
    OwnIsHeld(m, key, pick);
    KeptWithin(m - {key}, window, now);
    FullSplits(Own(m, key), m - {key}, window, now, pick);
    PlusNothing(Own(m, key));
  }

  lemma FullSplits<T>(own: Table<T>, rest: Table<T>, window: int, now: int, pick: string -> bool)
    requires own.Keys !! rest.Keys
    ensures Held(Kept(rest, window, now), pick) + Held(own + Gone(rest, window, now), pick)
         == Held(own, pick) + Held(rest, pick)
  {
    hide Held, Kept, Gone;
    KeptWithin(rest, window, now);
    HeldSplit(rest, window, now, pick);
    HeldUnion(own, Gone(rest, window, now), pick);
  }

  lemma OwnIsHeld<T>(m: Table<T>, key: string, pick: string -> bool)
    ensures Held(m, pick) == Held(Own(m, key), pick) + Held(m - {key}, pick)
    ensures Own(m, key).Keys <= {key} && key !in m - {key}
  {
    hide Held;
    EmptyHeld(m, key, pick);
    if key in m {
      HeldRemove(m, key, pick);
    } else {
      assert m - {key} == m;
    }
  }

  lemma FreshHoldsNothing<T>(m: Table<T>, key: string, payload: T, now: int, pick: string -> bool)
    requires key !in m
    ensures Held(m[key := Entry(now, 0, payload, None)], pick) == Held(m, pick)
  {
    hide Held;
    HeldUpdate(m, key, Entry(now, 0, payload, None), pick);
    assert m - {key} == m;
  }

  /** An offer loses no repeat: what the table holds afterwards and what it
      closed account for what it held, plus the repeat itself if it is one. */
  lemma OfferConserves<T>(m: Table<T>, window: int, key: string, payload: T, now: int, pick: string -> bool)
    ensures Repeats(m, window, key, now) ==>
              Held(AfterOffer(m, window, key, payload, now), pick) == Held(m, pick) + if pick(key) then 1 else 0
    ensures !Repeats(m, window, key, now) && window != 0 ==>
              Held(AfterOffer(m, window, key, payload, now), pick) + Held(ClosedBy(m, window, key, now), pick)
              == Held(m, pick)
  {
    hide Held, RoomFor, ClosedBy, SaturatingSub;
    RoomSplits(m, window, key, now, pick);
    FreshHoldsNothing(RoomFor(m, window, key, now), key, payload, now, pick);
    if key in m {
      RepeatIsHeld(m, key, payload, pick);
    }
  }

  lemma KeptWithin<T>(m: Table<T>, window: int, now: int)
    ensures Kept(m, window, now).Keys <= m.Keys && Gone(m, window, now).Keys <= m.Keys
  {
  }

  lemma EmptyHeld<T>(m: Table<T>, key: string, pick: string -> bool)
    ensures Held<T>(map[], pick) == 0
    ensures Held(Own(m, key), pick) == if key in m && pick(key) then m[key].count else 0
    ensures Own(m, key).Keys <= {key}
  {
    if key in m {
      HeldRemove(Own(m, key), key, pick);
      assert Own(m, key) - {key} == map[];
    }
  }

  /** A new occurrence gets a window iff fewer than ten thousand other keys have
      one that is not over. */
  lemma TrackedIff<T>(m: Table<T>, window: int, key: string, payload: T, now: int)
    requires 0 < window <= I64_MAX && (key !in m || now - m[key].start >= window)
    ensures key in AfterOffer(m, window, key, payload, now)
            <==> |set k | k in m && k != key && now - m[k].start < window| < 10_000
  {
    hide Expired, Kept, RoomFor;
    var rest := m - {key};
    var open := set k | k in m && k != key && now - m[k].start < window;
    OpenKeys(rest, window, now);
    RestKeys(m, key);
    assert Kept(rest, window, now).Keys == open;
    RoomIff(m, window, key, now);
    if key in m {
      ExpiredMeans(m[key], window, now);
    }
  }

  lemma RestKeys<T>(m: Table<T>, key: string)
    ensures forall k :: k in m - {key} <==> k in m && k != key
    ensures forall k | k in m - {key} :: (m - {key})[k] == m[k]
  {
  }

  lemma RoomIff<T>(m: Table<T>, window: int, key: string, now: int)
    ensures |RoomFor(m, window, key, now)| < MAX_KEYS <==> |Kept(m - {key}, window, now).Keys| < MAX_KEYS
    ensures key !in RoomFor(m, window, key, now)
  {
    hide Kept;
    var rest := m - {key};
    KeptWithin(rest, window, now);
    SubsetSize(Kept(rest, window, now).Keys, rest.Keys);
    SameSize(rest);
    SameSize(Kept(rest, window, now));
  }

  lemma SameSize<T>(m: Table<T>)
    ensures |m| == |m.Keys|
  {
  }

  lemma OpenKeys<T>(m: Table<T>, window: int, now: int)
    requires 0 < window <= I64_MAX
    ensures forall k :: k in Kept(m, window, now) <==> k in m && now - m[k].start < window
  {
    hide Expired;
    forall k | k in m ensures Expired(m[k], window, now) <==> now - m[k].start >= window {
      ExpiredMeans(m[k], window, now);
    }
  }

  // ----- spacing of emitted occurrences -----

  datatype Call<T> = Offered(key: string, payload: T, now: int) | Flushed(now: int)

  /** An Emit verdict: its key and time, and whether a window was opened for it. */
  datatype Stamp = Stamp(key: string, time: int, tracked: bool)

  function AfterCall<T>(m: Table<T>, window: int, call: Call<T>): Table<T> {
    match call
    case Offered(key, payload, now) => AfterOffer(m, window, key, payload, now)
    case Flushed(now) => Kept(m, window, now)
  }

  function EmitOf<T>(m: Table<T>, window: int, call: Call<T>): seq<Stamp> {
    if call.Offered? && !Repeats(m, window, call.key, call.now)
    then [Stamp(call.key, call.now, call.key in AfterCall(m, window, call))]
    else []
  }

  /** The Emit verdicts of a sequence of calls, from a given table. */
  function Emits<T>(m: Table<T>, window: int, calls: seq<Call<T>>): seq<Stamp>
    decreases |calls|
  {
    if calls == [] then []
    else EmitOf(m, window, calls[0]) + Emits(AfterCall(m, window, calls[0]), window, calls[1..])
  }

  function Times<T>(calls: seq<Call<T>>): seq<int> { seq(|calls|, i requires 0 <= i < |calls| => calls[i].now) }

  predicate NonDecreasing(times: seq<int>) { forall i, j | 0 <= i < j < |times| :: times[i] <= times[j] }

  /** Once the clock is a whole window past `t`, it stays so. */
  predicate StaysPast(times: seq<int>, t: int, window: int) {
    forall j, k | 0 <= j < k < |times| && times[j] - t >= window :: times[k] - t >= window
  }

  /** Once the clock is a whole window past an earlier reading, it stays so. */
  predicate Settled(times: seq<int>, window: int) {
    forall i | 0 <= i < |times| :: StaysPast(times[i + 1..], times[i], window)
  }

  lemma ForwardIsSettled(times: seq<int>, window: int)
    requires NonDecreasing(times)
    ensures Settled(times, window)
  {
  }

  /** An occurrence of `key` went out at time `t`: its window is still open, or
      the clock is a whole window past it for good. */
  predicate Covered<T>(m: Table<T>, window: int, key: string, t: int, times: seq<int>) {
    (key in m && m[key].start == t) || forall k | 0 <= k < |times| :: times[k] - t >= window
  }

  /** An open window stays open, and its key is not emitted, until it is over. */
  lemma CallKeepsOpen<T>(m: Table<T>, window: int, call: Call<T>, key: string, t: int)
    requires 0 < window <= I64_MAX && key in m && m[key].start == t && call.now - t < window
    ensures var after := AfterCall(m, window, call);
            key in after && after[key].start == t
    ensures forall s | s in EmitOf(m, window, call) :: s.key != key
  {
    hide Expired;
    ExpiredMeans(m[key], window, call.now);
  }

  /** Saturation does not matter: a window fits in 64 bits. */
  lemma ExpiredMeans<T>(e: Entry<T>, window: int, now: int)
    requires 0 < window <= I64_MAX
    ensures Expired(e, window, now) <==> now - e.start >= window
  {
  }

  lemma EmittedNow<T>(m: Table<T>, window: int, call: Call<T>)
    ensures forall s | s in EmitOf(m, window, call) :: s.time == call.now
  {
  }

  lemma {:induction false} LaterEmits<T>(m: Table<T>, window: int, calls: seq<Call<T>>, key: string, t: int)
    requires 0 < window <= I64_MAX
    requires StaysPast(Times(calls), t, window) && Covered(m, window, key, t, Times(calls))
    ensures forall s | s in Emits(m, window, calls) && s.key == key :: s.time - t >= window
    decreases |calls|
  {
    if calls != [] {
      hide AfterCall, EmitOf;
      var times := Times(calls);
      assert Times(calls[1..]) == times[1..];
      EmittedNow(m, window, calls[0]);
      if calls[0].now - t < window {
        assert times[0] - t < window;
        CallKeepsOpen(m, window, calls[0], key, t);
      } else {
        assert forall k | 0 <= k < |times[1..]| :: times[1..][k] == times[k + 1];
      }
      LaterEmits(AfterCall(m, window, calls[0]), window, calls[1..], key, t);
    }
  }

  predicate Spaced(log: seq<Stamp>, window: int) {
    forall i, j | 0 <= i < j < |log| && log[i].key == log[j].key && log[i].tracked ::
      log[j].time - log[i].time >= window
  }

  /** With a settled clock and a positive window, two Emit verdicts for one key
      are at least a window apart, unless the first was given with the table full. */
  lemma {:induction false} EmitsAreSpaced<T>(m: Table<T>, window: int, calls: seq<Call<T>>)
    requires 0 < window <= I64_MAX && Settled(Times(calls), window)
    ensures Spaced(Emits(m, window, calls), window)
    decreases |calls|
  {
    if calls != [] {
      hide StaysPast, EmitOf, AfterCall;
      var call, after := calls[0], AfterCall(m, window, calls[0]);
      var first, rest := EmitOf(m, window, call), Emits(after, window, calls[1..]);
      SettledTail(calls, window);
      EmitsAreSpaced(after, window, calls[1..]);
      TrackedIsOpen(m, window, call);
      if first != [] && first[0].tracked {
        LaterEmits(after, window, calls[1..], call.key, call.now);
      }
      SpacedAfter(first, rest, window);
    }
  }

  lemma SettledTail<T>(calls: seq<Call<T>>, window: int)
    requires calls != [] && Settled(Times(calls), window)
    ensures Settled(Times(calls[1..]), window) && StaysPast(Times(calls[1..]), calls[0].now, window)
  {
    hide StaysPast;
    var times := Times(calls);
    assert Times(calls[1..]) == times[1..];
    assert times[0 + 1..] == times[1..] && StaysPast(times[0 + 1..], times[0], window);
    forall i | 0 <= i < |times[1..]|
      ensures StaysPast(times[1..][i + 1..], times[1..][i], window)
    {
      assert times[1..][i + 1..] == times[i + 2..];
    }
  }

  lemma TrackedIsOpen<T>(m: Table<T>, window: int, call: Call<T>)
    requires window > 0
    ensures |EmitOf(m, window, call)| <= 1
    ensures EmitOf(m, window, call) != [] ==>
              var s := EmitOf(m, window, call)[0];
              var after := AfterCall(m, window, call);
              s.key == call.key && s.time == call.now
              && (s.tracked ==> call.key in after && after[call.key].start == call.now)
  {
  }

  lemma SpacedAfter(first: seq<Stamp>, rest: seq<Stamp>, window: int)
    requires |first| <= 1
    requires first != [] && first[0].tracked ==>
               forall s | s in rest && s.key == first[0].key :: s.time - first[0].time >= window
    requires Spaced(rest, window)
    ensures Spaced(first + rest, window)
  {
    var log := first + rest;
    forall i, j | 0 <= i < j < |log| && log[i].key == log[j].key && log[i].tracked
      ensures log[j].time - log[i].time >= window
    {
      assert log[j] == rest[j - |first|] && log[j] in rest;
      if i >= |first| {
        assert log[i] == rest[i - |first|];
      }
    }
  }

  // ----- a clock that is not settled -----

  function AfterCalls<T>(m: Table<T>, window: int, calls: seq<Call<T>>): Table<T>
    decreases |calls|
  {
    if calls == [] then m else AfterCalls(AfterCall(m, window, calls[0]), window, calls[1..])
  }

  // ----- what a summary tells -----

  /** The payloads offered for a key, in order. */
  function PayloadsOf<T>(calls: seq<Call<T>>, key: string): seq<T> {
    if calls == [] then []
    else (if calls[0].Offered? && calls[0].key == key then [calls[0].payload] else []) + PayloadsOf(calls[1..], key)
  }

  /** While its window is open, an entry keeps its start and its sample, counts
      every further occurrence of its key and holds the latest. */
  lemma {:induction false} OpenWindowCounts<T>(m: Table<T>, window: int, calls: seq<Call<T>>, key: string)
    requires 0 < window <= I64_MAX && key in m
    requires forall c <- calls :: c.now - m[key].start < window
    ensures var after, p := AfterCalls(m, window, calls), PayloadsOf(calls, key);
            key in after
            && after[key] == Entry(m[key].start, m[key].count + |p|, m[key].sample,
                                   if p == [] then m[key].last else Some(p[|p| - 1]))
    decreases |calls|
  {
    if calls != [] {
      hide AfterCall;
      var rest := calls[1..];
      CallCounts(m, window, calls[0], key);
      assert forall c <- rest :: c in calls;
      OpenWindowCounts(AfterCall(m, window, calls[0]), window, rest, key);
    }
  }

  lemma CallCounts<T>(m: Table<T>, window: int, call: Call<T>, key: string)
    requires 0 < window <= I64_MAX && key in m && call.now - m[key].start < window
    ensures var after := AfterCall(m, window, call);
            key in after
            && after[key] == if call.Offered? && call.key == key
                             then m[key].(count := m[key].count + 1, last := Some(call.payload)) else m[key]
  {
    hide Expired;
    ExpiredMeans(m[key], window, call.now);
  }

  /** An occurrence opens a window, others of the key come while it is open, and
      a flush after it reports them: how many, with the opening occurrence and
      the latest; a window without repeats is not reported. */
  lemma SummaryTellsRun<T(!new)>(m: Table<T>, window: int, key: string, payload: T, t: int, calls: seq<Call<T>>,
      now: int, added: seq<Summary<T>>)
    requires 0 < window <= I64_MAX && (key !in m || t - m[key].start >= window)
    requires key in AfterOffer(m, window, key, payload, t)
    requires forall c <- calls :: c.now - t < window
    requires now - t >= window
    requires var held := AfterCalls(m, window, [Offered(key, payload, t)] + calls);
             Reports(added, Gone(held, window, now))
    ensures var p := PayloadsOf(calls, key);
            if p == [] then forall s <- added :: s.key != key
            else forall s :: s in added && s.key == key <==> s == Summary(key, |p|, payload, p[|p| - 1])
  {
    hide PayloadsOf;
    var began := AfterOffer(m, window, key, payload, t);
    var held := AfterCalls(began, window, calls);
    var first: Call<T> := Offered(key, payload, t);
    assert ([first] + calls)[0] == first && ([first] + calls)[1..] == calls;
    if key in m {
      ExpiredMeans(m[key], window, t);
    }
    assert began[key] == Entry(t, 0, payload, None);
    OpenWindowCounts(began, window, calls, key);
    ExpiredMeans(held[key], window, now);
  }

  lemma {:induction false} EmitsConcat<T>(m: Table<T>, window: int, x: seq<Call<T>>, y: seq<Call<T>>)
    ensures Emits(m, window, x + y) == Emits(m, window, x) + Emits(AfterCalls(m, window, x), window, y)
    ensures AfterCalls(m, window, x + y) == AfterCalls(AfterCalls(m, window, x), window, y)
    decreases |x|
  {
    hide AfterCall, EmitOf;
    if x == [] {
      assert x + y == y;
    } else {
      assert (x + y)[1..] == x[1..] + y;
      EmitsConcat(AfterCall(m, window, x[0]), window, x[1..], y);
    }
  }

  function Flushes<T>(times: seq<int>): (calls: seq<Call<T>>)
    ensures Times(calls) == times
  {
    seq(|times|, i requires 0 <= i < |times| => Flushed(times[i]))
  }

  lemma {:induction false} FlushesEmitNothing<T>(m: Table<T>, window: int, times: seq<int>)
    ensures Emits(m, window, Flushes(times)) == []
    decreases |times|
  {
    if times != [] {
      assert Flushes<T>(times)[1..] == Flushes(times[1..]);
      FlushesEmitNothing(AfterCall(m, window, Flushes(times)[0]), window, times[1..]);
    }
  }

  lemma {:induction false} FlushesKeepEmpty<T>(window: int, times: seq<int>)
    ensures AfterCalls<T>(map[], window, Flushes(times)) == map[]
    decreases |times|
  {
    if times != [] {
      assert Flushes<T>(times)[1..] == Flushes(times[1..]);
      assert Kept<T>(map[], window, times[0]) == map[];
      FlushesKeepEmpty<T>(window, times[1..]);
    }
  }

  /** A window is closed by the first flush behind its end. */
  lemma {:induction false} FlushesClose<T>(key: string, e: Entry<T>, window: int, times: seq<int>, j: nat)
    requires 0 < window <= I64_MAX && j < |times| && times[j] - e.start >= window
    ensures AfterCalls(map[key := e], window, Flushes(times)) == map[]
    decreases |times|
  {
    hide Expired;
    var m := map[key := e];
    assert Flushes<T>(times)[1..] == Flushes(times[1..]);
    ExpiredMeans(e, window, times[0]);
    if times[0] - e.start >= window {
      assert Kept(m, window, times[0]) == map[];
      FlushesKeepEmpty<T>(window, times[1..]);
    } else {
      assert Kept(m, window, times[0]) == m;
      FlushesClose(key, e, window, times[1..], j - 1);
    }
  }

  lemma OfferToEmpty<T>(window: int, key: string, payload: T, now: int)
    requires window > 0
    ensures var call := Offered(key, payload, now);
            EmitOf(map[], window, call) == [Stamp(key, now, true)]
            && AfterCall(map[], window, call) == map[key := Entry(now, 0, payload, None)]
  {
    assert RoomFor<T>(map[], window, key, now) == map[];
  }

  lemma FlushThenOffer<T>(m: Table<T>, window: int, payload: T, times: seq<int>, now: int)
    requires window > 0 && AfterCalls(m, window, Flushes(times)) == map[]
    ensures var calls := Flushes<T>(times) + [Offered("k", payload, now)];
            Times(calls) == times + [now] && Emits(m, window, calls) == [Stamp("k", now, true)]
            && AfterCalls(m, window, calls) == map["k" := Entry(now, 0, payload, None)]
  {
    hide EmitOf, AfterCall;
    var offer := [Offered("k", payload, now)];
    OfferToEmpty(window, "k", payload, now);
    FlushesEmitNothing(m, window, times);
    EmitsConcat(m, window, Flushes(times), offer);
    assert offer[1..] == [];
  }

  /** One key, offered at `t` and again at `u`, with a flush in between at which
      the window is over: both offers go out. */
  lemma TwoEmits<T>(window: int, payload: T, a: seq<int>, t: int, b: seq<int>, u: int, c: seq<int>, j: nat)
    returns (calls: seq<Call<T>>)
    requires 0 < window <= I64_MAX && j < |b| && b[j] - t >= window > u - t
    ensures Times(calls) == a + [t] + b + [u] + c && !Spaced(Emits<T>(map[], window, calls), window)
  {
    hide AfterCalls, Emits, Flushes;
    FlushesKeepEmpty<T>(window, a);
    FlushThenOffer<T>(map[], window, payload, a, t);
    FlushesClose("k", Entry(t, 0, payload, None), window, b, j);
    FlushThenOffer(map["k" := Entry(t, 0, payload, None)], window, payload, b, u);
    var x, y := Flushes(a) + [Offered("k", payload, t)], Flushes(b) + [Offered("k", payload, u)];
    EmitsConcat<T>(map[], window, x, y);
    EmitsConcat<T>(map[], window, x + y, Flushes(c));
    calls := x + y + Flushes(c);
    assert Times(calls) == Times(x) + Times(y) + Times<T>(Flushes(c));
    var log := Emits<T>(map[], window, calls);
    assert log[0] == Stamp("k", t, true) && log[1] == Stamp("k", u, true);
  }

  lemma NotPast(times: seq<int>, t: int, window: int) returns (p: nat, q: nat)
    requires !StaysPast(times, t, window)
    ensures p < q < |times| && times[p] - t >= window > times[q] - t
  {
    p, q :| 0 <= p < q < |times| && times[p] - t >= window > times[q] - t;
  }

  lemma NotSettled(times: seq<int>, window: int) returns (i: nat, j: nat, k: nat)
    requires !Settled(times, window)
    ensures i < j < k < |times| && times[j] - times[i] >= window > times[k] - times[i]
  {
    hide StaysPast;
    i :| 0 <= i < |times| && !StaysPast(times[i + 1..], times[i], window);
    var p, q := NotPast(times[i + 1..], times[i], window);
    j, k := i + 1 + p, i + 1 + q;
  }

  lemma SplitTimes(times: seq<int>, i: nat, k: nat)
    requires i < k < |times|
    ensures times == times[..i] + [times[i]] + times[i + 1..k] + [times[k]] + times[k + 1..]
  {
  }

  /** For given times of the calls: the Emit verdicts of a fresh collapser are
      spaced, whatever is offered and flushed, exactly when the clock is settled. */
  lemma SpacedIff<T(!new)>(times: seq<int>, window: int, payload: T)
    requires 0 < window <= I64_MAX
    ensures (forall calls: seq<Call<T>> | Times(calls) == times :: Spaced(Emits<T>(map[], window, calls), window))
        <==> Settled(times, window)
  {
    hide Settled, Spaced, Emits;
    if Settled(times, window) {
      forall calls: seq<Call<T>> | Times(calls) == times
        ensures Spaced(Emits<T>(map[], window, calls), window)
      {
        EmitsAreSpaced<T>(map[], window, calls);
      }
    } else {
      var i, j, k := NotSettled(times, window);
      SplitTimes(times, i, k);
      var between := times[i + 1..k];
      var calls := TwoEmits(window, payload, times[..i], times[i], between, times[k], times[k + 1..], j - i - 1);
      assert Times(calls) == times;
    }
  }

  lemma EmitsStep<T>(m: Table<T>, window: int, calls: seq<Call<T>>, i: nat)
    requires i <= |calls|
    ensures Emits(m, window, calls[i..])
         == if i == |calls| then []
            else EmitOf(m, window, calls[i]) + Emits(AfterCall(m, window, calls[i]), window, calls[i + 1..])
  {
    hide EmitOf, AfterCall;
    if i < |calls| {
      assert calls[i..][1..] == calls[i + 1..];
    }
  }

  /** One call on the collapser of the source: its Emit verdict, if it gives one. */
  method RunCall<T(!new)>(c: Collapser<T>, call: Call<T>) returns (log: seq<Stamp>)
    requires c.Valid()
    modifies c`entries, c`closed
    ensures c.Valid() && c.entries == AfterCall(old(c.entries), c.window, call)
    ensures log == EmitOf(old(c.entries), c.window, call)
  {
    hide AfterOffer, Repeats, Kept, Reports;
    log := [];
    match call {
      case Offered(key, payload, now) =>
        var v := c.Offer(key, payload, now);
        if v.Emit? {
          log := [Stamp(key, now, key in c.entries)];
        }
      case Flushed(now) =>
        var out := c.Flush(now);
    }
  }

  method RunCalls<T(!new)>(window: nat, calls: seq<Call<T>>) returns (log: seq<Stamp>)
    ensures log == Emits<T>(map[], Min(window, I64_MAX), calls)
    ensures window > 0 && (Settled(Times(calls), Min(window, I64_MAX)) || NonDecreasing(Times(calls)))
            ==> Spaced(log, Min(window, I64_MAX))
  {
    hide AfterCall, EmitOf, Emits, Spaced, Settled, NonDecreasing;
    var c := new Collapser<T>(window);
    ghost var w := Min(window, I64_MAX);
    log := [];
    assert calls[0..] == calls;
    for i := 0 to |calls|
      invariant fresh(c) && c.Valid() && c.window == w
      invariant Emits<T>(map[], w, calls) == log + Emits(c.entries, w, calls[i..])
    {
      EmitsStep(c.entries, w, calls, i);
      var more := RunCall(c, calls[i]);
      log := log + more;
    }
    EmitsStep(c.entries, w, calls, |calls|);
    if NonDecreasing(Times(calls)) {
      ForwardIsSettled(Times(calls), w);
    }
    if window > 0 && Settled(Times(calls), w) {
      EmitsAreSpaced<T>(map[], w, calls);
    }
  }
}
