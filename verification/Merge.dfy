/** The k-way merge of record producers by timestamp. */
module Merge {
  import opened Common

  datatype Rec = Rec(source: nat, lineId: nat, ts: int, severity: nat, bytes: Bytes)

  /** A buffered record and the producer it came from. */
  datatype Slot = Slot(rec: Rec, producer: nat)

  datatype Ordering = LessThan | EqualTo | GreaterThan

  function CompareInt(a: int, b: int): Ordering {
    if a < b then LessThan else if a == b then EqualTo else GreaterThan
  }

  /** `Slot::cmp`: inverted, because the heap gives its greatest slot first. */
  function Cmp(a: Slot, b: Slot): Ordering {
    match CompareInt(b.rec.ts, a.rec.ts)
    case EqualTo => CompareInt(b.producer, a.producer)
    case other => other
  }

  /** The order records should come out in: by time, then by producer. */
  predicate Before(t: int, i: nat, u: int, j: nat) { t < u || (t == u && i <= j) }

  // ----- what is still to come, producer by producer -----

  type Pending = seq<seq<Rec>>

  /** The non-empty producer among the first `n` whose head is first in order. */
  function WinnerOf(pending: Pending, n: nat): (w: Option<nat>)
    requires n <= |pending|
    ensures w.None? ==> forall j | 0 <= j < n :: pending[j] == []
    ensures w.Some? ==> w.value < n && pending[w.value] != []
                        && forall j | 0 <= j < n && pending[j] != [] ::
                             Before(pending[w.value][0].ts, w.value, pending[j][0].ts, j)
  {
    if n == 0 then None else
    var w := WinnerOf(pending, n - 1);
    if pending[n - 1] == [] then w
    else if w.None? || pending[n - 1][0].ts < pending[w.value][0].ts then Some(n - 1)
    else w
  }

  function Winner(pending: Pending): Option<nat> { WinnerOf(pending, |pending|) }

  function Total(pending: Pending): nat {
    if pending == [] then 0 else |pending[0]| + Total(pending[1..])
  }

  lemma {:induction false} TotalDrops(pending: Pending, i: nat)
    requires i < |pending| && pending[i] != []
    ensures Total(pending) == Total(pending[i := pending[i][1..]]) + 1
  {
    var after := pending[i := pending[i][1..]];
    if i == 0 {
      assert after[1..] == pending[1..];
    } else {
      assert after[1..] == pending[1..][i - 1 := pending[1..][i - 1][1..]];
      TotalDrops(pending[1..], i - 1);
    }
  }

  // ----- a whole run -----

  /** A record that came out: its position, the record as produced, its producer. */
  datatype Emitted = Emitted(lineId: nat, rec: Rec, producer: nat) {
    /** What the caller gets: the record with its line id reassigned. */
    function Record(): Rec { rec.(lineId := lineId) }
  }

  function Run(pending: Pending, counter: nat): seq<Emitted>
    decreases Total(pending)
  {
    match Winner(pending)
    case None => []
    case Some(i) =>
      TotalDrops(pending, i);
      [Emitted(counter, pending[i][0], i)] + Run(pending[i := pending[i][1..]], counter + 1)
  }

  /** The records of one producer, in the order they came out. */
  function From(out: seq<Emitted>, i: nat): seq<Rec> {
    if out == [] then []
    else (if out[0].producer == i then [out[0].rec] else []) + From(out[1..], i)
  }

  /** The output is an interleaving: each producer's records come out in their
      own order, none lost and none twice. */
  lemma {:induction false} RunInterleaves(pending: Pending, counter: nat, i: nat)
    requires i < |pending|
    ensures From(Run(pending, counter), i) == pending[i]
    decreases Total(pending)
  {
    match Winner(pending) {
      case None =>
      case Some(w) =>
        TotalDrops(pending, w);
        var after: Pending := pending[w := pending[w][1..]];
        RunInterleaves(after, counter + 1, i);
        assert Run(pending, counter)[1..] == Run(after, counter + 1);
    }
  }

  /** Line ids count up from the first one without a gap, and every record
      comes from one of the producers. */
  lemma {:induction false} RunNumbers(pending: Pending, counter: nat)
    ensures |Run(pending, counter)| == Total(pending)
    ensures forall k | 0 <= k < |Run(pending, counter)| ::
              var e := Run(pending, counter)[k];
              e.lineId == counter + k && e.producer < |pending| && e.Record() == e.rec.(lineId := counter + k)
    decreases Total(pending)
  {
    match Winner(pending) {
      case None => NothingPending(pending);
      case Some(w) =>
        TotalDrops(pending, w);
        var after: Pending := pending[w := pending[w][1..]];
        RunNumbers(after, counter + 1);
    }
  }

  lemma {:induction false} NothingPending(pending: Pending)
    requires forall j | 0 <= j < |pending| :: pending[j] == []
    ensures Total(pending) == 0
  {
    if pending != [] {
      NothingPending(pending[1..]);
    }
  }

  predicate SortedByTime(s: seq<Rec>) { forall i, j | 0 <= i < j < |s| :: s[i].ts <= s[j].ts }

  predicate AllSorted(pending: Pending) { forall i | 0 <= i < |pending| :: SortedByTime(pending[i]) }

  predicate InOrder(out: seq<Emitted>) {
    forall j, k | 0 <= j < k < |out| ::
      out[j].rec.ts < out[k].rec.ts || (out[j].rec.ts == out[k].rec.ts && out[j].producer <= out[k].producer)
  }

  /** Everything still pending comes at or after a given time and producer. */
  predicate NoneBefore(pending: Pending, ts: int, producer: nat) {
    forall i, k | 0 <= i < |pending| && 0 <= k < |pending[i]| :: Before(ts, producer, pending[i][k].ts, i)
  }

  lemma WinnerIsFirst(pending: Pending, w: nat)
    requires AllSorted(pending) && Winner(pending) == Some(w)
    ensures NoneBefore(pending[w := pending[w][1..]], pending[w][0].ts, w)
  {
    var after: Pending := pending[w := pending[w][1..]];
    forall i, k | 0 <= i < |after| && 0 <= k < |after[i]|
      ensures Before(pending[w][0].ts, w, after[i][k].ts, i)
    {
      assert SortedByTime(pending[i]);
      if i == w {
        assert after[i][k] == pending[i][k + 1];
      } else {
        assert pending[i][0].ts <= pending[i][k].ts;
      }
    }
  }

  lemma {:induction false} RunNotBefore(pending: Pending, counter: nat, ts: int, producer: nat)
    requires NoneBefore(pending, ts, producer)
    ensures forall k | 0 <= k < |Run(pending, counter)| ::
              Before(ts, producer, Run(pending, counter)[k].rec.ts, Run(pending, counter)[k].producer)
    decreases Total(pending)
  {
    match Winner(pending) {
      case None =>
      case Some(w) =>
        TotalDrops(pending, w);
        var after: Pending := pending[w := pending[w][1..]];
        assert NoneBefore(after, ts, producer) by {
          assert forall k | 0 <= k < |after[w]| :: after[w][k] == pending[w][k + 1];
        }
        RunNotBefore(after, counter + 1, ts, producer);
    }
  }

  /** When every producer is sorted by time, so is the output, with equal times
      in producer order. */
  lemma {:induction false} RunIsSorted(pending: Pending, counter: nat)
    requires AllSorted(pending)
    ensures InOrder(Run(pending, counter))
    decreases Total(pending)
  {
    match Winner(pending) {
      case None =>
      case Some(w) =>
        TotalDrops(pending, w);
        var after: Pending := pending[w := pending[w][1..]];
        assert AllSorted(after) by {
          assert SortedByTime(pending[w]);
          assert forall k | 0 <= k < |after[w]| :: after[w][k] == pending[w][k + 1];
        }
        RunIsSorted(after, counter + 1);
        WinnerIsFirst(pending, w);
        RunNotBefore(after, counter + 1, pending[w][0].ts, w);
        var out := Run(pending, counter);
        assert out[1..] == Run(after, counter + 1);
        forall j, k | 0 <= j < k < |out|
          ensures Before(out[j].rec.ts, out[j].producer, out[k].rec.ts, out[k].producer)
        {
          assert out[k] == out[1..][k - 1];
          if j > 0 {
            assert out[j] == out[1..][j - 1];
          }
        }
    }
  }

  lemma {:induction false} FromMember(out: seq<Emitted>, i: nat, r: Rec)
    requires r in From(out, i)
    ensures exists k :: 0 <= k < |out| && out[k].rec == r && out[k].producer == i
  {
    if out[0].rec == r && out[0].producer == i {
    } else {
      FromMember(out[1..], i, r);
      var k :| 0 <= k < |out[1..]| && out[1..][k].rec == r && out[1..][k].producer == i;
      assert out[k + 1] == out[1..][k];
    }
  }

  /** Records that come out in order were in time order at their producer. */
  lemma {:induction false} FromIsSorted(out: seq<Emitted>, i: nat)
    requires InOrder(out)
    ensures SortedByTime(From(out, i))
  {
    if out != [] {
      var rest := From(out[1..], i);
      FromIsSorted(out[1..], i);
      if out[0].producer == i {
        forall k | 0 <= k < |rest|
          ensures out[0].rec.ts <= rest[k].ts
        {
          FromMember(out[1..], i, rest[k]);
          var j :| 0 <= j < |out[1..]| && out[1..][j].rec == rest[k] && out[1..][j].producer == i;
          assert out[j + 1] == out[1..][j];
        }
        assert From(out, i) == [out[0].rec] + rest;
      }
    }
  }

  /** The merged records come out in time order, equal times in producer order,
      exactly when every producer is in time order. */
  lemma RunIsSortedIff(pending: Pending, counter: nat)
    ensures InOrder(Run(pending, counter)) <==> AllSorted(pending)
  {
    hide Run, From, SortedByTime, InOrder;
    if AllSorted(pending) {
      RunIsSorted(pending, counter);
    }
    if InOrder(Run(pending, counter)) {
      forall i | 0 <= i < |pending|
        ensures SortedByTime(pending[i])
      {
        RunInterleaves(pending, counter, i);
        FromIsSorted(Run(pending, counter), i);
      }
    }
  }

  lemma FirstOut(pending: Pending, counter: nat) returns (w: nat)
    requires Run(pending, counter) != []
    ensures w < |pending| && pending[w] != [] && Winner(pending) == Some(w)
    ensures var out := Run(pending, counter);
            out[0] == Emitted(counter, pending[w][0], w) && out[1..] == Run(pending[w := pending[w][1..]], counter + 1)
    ensures forall j | 0 <= j < |pending| && pending[j] != [] ::
              pending[w][0].ts < pending[j][0].ts || (pending[w][0].ts == pending[j][0].ts && w <= j)
  {
    w := Winner(pending).value;
    TotalDrops(pending, w);
  }

  lemma DropFirst(out: seq<Emitted>, k: nat)
    requires k < |out|
    ensures if k == 0 then out[k..] == out else out[1..][k - 1..] == out[k..] && out[1..][k - 1] == out[k]
  {
  }

  /** Each record that comes out is, at that moment, first in order among the
      heads of all producers. */
  lemma {:induction false} RunEmitsHeads(pending: Pending, counter: nat, k: nat) returns (left: Pending)
    requires k < |Run(pending, counter)|
    ensures |left| == |pending|
    ensures var e := Run(pending, counter)[k];
            Winner(left) == Some(e.producer) && e.rec == left[e.producer][0]
            && Run(pending, counter)[k..] == Run(left, counter + k)
            && forall j | 0 <= j < |left| && left[j] != [] ::
                 e.rec.ts < left[j][0].ts || (e.rec.ts == left[j][0].ts && e.producer <= j)
    decreases k
  {
    var w := FirstOut(pending, counter);
    hide Run, Winner;
    var out := Run(pending, counter);
    DropFirst(out, k);
    if k == 0 {
      left := pending;
    } else {
      var after: Pending := pending[w := pending[w][1..]];
      left := RunEmitsHeads(after, counter + 1, k - 1);
    }
  }

  // ----- the producer of the source -----

  /** Of the first `n` producers, each with records left has one slot in the
      heap, holding its next record. */
  predicate Buffered(pending: Pending, producers: seq<seq<Rec>>, heap: seq<Slot>, n: nat) {
    |pending| == |producers| && n <= |producers|
    && (forall i | 0 <= i < n ::
          if pending[i] == [] then producers[i] == []
          else producers[i] == pending[i][1..] && Slot(pending[i][0], i) in heap)
    && (forall i | n <= i < |producers| :: producers[i] == pending[i])
    && (forall s | s in heap :: s.producer < n && pending[s.producer] != [] && s.rec == pending[s.producer][0])
    && forall j, k | 0 <= j < k < |heap| :: heap[j].producer != heap[k].producer
  }

  /** Taking out a slot and putting back the next record of its producer, if
      there is one, keeps the heap right. */
  lemma ReplenishKeepsBuffered(pending: Pending, producers: seq<seq<Rec>>, heap: seq<Slot>, k: nat)
    requires Buffered(pending, producers, heap, |producers|) && k < |heap|
    ensures var w := heap[k].producer;
            w < |producers| && pending[w] != []
            && (var after: Pending := pending[w := pending[w][1..]];
                var rest := heap[..k] + heap[k + 1..];
                if producers[w] == [] then Buffered(after, producers, rest, |producers|)
                else Buffered(after, producers[w := producers[w][1..]], rest + [Slot(producers[w][0], w)], |producers|))
  {
    assert heap[k] in heap;
    var rest := heap[..k] + heap[k + 1..];
    KeepsOthers(heap, rest, k);
  }

  class MergeProducer {
    /** The records each underlying producer has not handed out yet. */
    var producers: seq<seq<Rec>>
    var heap: seq<Slot>
    var lineIdCounter: nat
    var primed: bool
    ghost var pending: Pending

    ghost predicate Valid()
      reads this
    {
      Buffered(pending, producers, heap, if primed then |producers| else 0)
    }

    constructor (producers: seq<seq<Rec>>)
      ensures Valid() && pending == producers && lineIdCounter == 0
    {
      this.producers := producers;
      heap := [];
      lineIdCounter := 0;
      primed := false;
      pending := producers;
    }

    method Prime()
      requires Valid() && !primed
      modifies this
      ensures Valid() && primed && pending == old(pending) && lineIdCounter == old(lineIdCounter)
    {
      for i := 0 to |producers|
        invariant pending == old(pending) && lineIdCounter == old(lineIdCounter) && !primed
        invariant |producers| == |pending| && Buffered(pending, producers, heap, i)
      {
        if producers[i] != [] {
          var rec := producers[i][0];
          producers := producers[i := producers[i][1..]];
          heap := heap + [Slot(rec, i)];
        }
      }
      primed := true;
    }

    /** `BinaryHeap::pop`: take out the greatest slot by `Cmp`. */
    method Pop() returns (slot: Slot)
      requires heap != []
      modifies this`heap
      ensures slot in old(heap) && forall s | s in old(heap) :: Cmp(slot, s) != LessThan
      ensures exists k :: 0 <= k < |old(heap)| && old(heap)[k] == slot && heap == old(heap)[..k] + old(heap)[k + 1..]
    {
      var best := 0;
      for k := 1 to |heap|
        invariant 0 <= best < |heap|
        invariant forall j | 0 <= j < k :: Cmp(heap[best], heap[j]) != LessThan
      {
        if Cmp(heap[best], heap[k]).LessThan? {
          best := k;
        }
      }
      slot := heap[best];
      heap := heap[..best] + heap[best + 1..];
    }

    /** One record: the head that is first in order, renumbered; or nothing
        when every producer is exhausted. */
    method Next() returns (r: Option<Rec>)
      requires Valid()
      modifies this
      ensures Valid()
      ensures Winner(old(pending)).None? ==> r == None && pending == old(pending) && lineIdCounter == old(lineIdCounter)
      ensures Winner(old(pending)).Some? ==>
                var w := Winner(old(pending)).value;
                r == Some(Emitted(old(lineIdCounter), old(pending)[w][0], w).Record())
                && pending == old(pending)[w := old(pending)[w][1..]]
                && lineIdCounter == old(lineIdCounter) + 1
    {
      if !primed {
        Prime();
      }
      if heap == [] {
        NoSlots(pending, producers);
        return None;
      }
      hide Winner, Cmp, Buffered;
      ghost var was := heap;
      BufferedHeads(pending, producers, heap);
      var slot := Pop();
      ghost var w := slot.producer;
      SlotIsWinner(pending, was, slot);
      ghost var k :| 0 <= k < |was| && was[k] == slot && heap == was[..k] + was[k + 1..];
      ReplenishKeepsBuffered(pending, producers, was, k);
      if producers[slot.producer] != [] {
        var next := producers[slot.producer][0];
        producers := producers[slot.producer := producers[slot.producer][1..]];
        heap := heap + [Slot(next, slot.producer)];
      }
      pending := pending[w := pending[w][1..]];
      r := Some(slot.rec.(lineId := lineIdCounter));
      lineIdCounter := lineIdCounter + 1;
    }
  }

  lemma BufferedHeads(pending: Pending, producers: seq<seq<Rec>>, heap: seq<Slot>)
    requires Buffered(pending, producers, heap, |producers|)
    ensures |pending| == |producers|
    ensures forall s | s in heap :: s.producer < |pending| && pending[s.producer] != []
              && s.rec == pending[s.producer][0]
    ensures forall i | 0 <= i < |pending| && pending[i] != [] :: Slot(pending[i][0], i) in heap
  {
  }

  lemma NoSlots(pending: Pending, producers: seq<seq<Rec>>)
    requires Buffered(pending, producers, [], |producers|)
    ensures Winner(pending).None?
  {
  }

  lemma SlotIsWinner(pending: Pending, heap: seq<Slot>, slot: Slot)
    requires slot in heap && forall s | s in heap :: Cmp(slot, s) != LessThan
    requires forall s | s in heap :: s.producer < |pending| && pending[s.producer] != []
              && s.rec == pending[s.producer][0]
    requires forall i | 0 <= i < |pending| && pending[i] != [] :: Slot(pending[i][0], i) in heap
    ensures Winner(pending) == Some(slot.producer)
  {
    var w := Winner(pending);
    assert w.Some?;
    assert Cmp(slot, Slot(pending[w.value][0], w.value)) != LessThan;
  }

  lemma KeepsOthers(was: seq<Slot>, heap: seq<Slot>, k: nat)
    requires k < |was| && heap == was[..k] + was[k + 1..]
    requires forall i, j | 0 <= i < j < |was| :: was[i].producer != was[j].producer
    ensures forall s :: s in heap <==> s in was && s.producer != was[k].producer
    ensures forall i, j | 0 <= i < j < |heap| :: heap[i].producer != heap[j].producer
  {
  }

  /** Pulling until nothing is left gives the whole run, numbered from zero. */
  method DrainAll(producers: seq<seq<Rec>>) returns (out: seq<Rec>)
    ensures |out| == |Run(producers, 0)|
    ensures forall k | 0 <= k < |out| :: out[k] == Run(producers, 0)[k].Record()
  {
    var merge := new MergeProducer(producers);
    out := [];
    ghost var goal := Run(producers, 0);
    while true
      invariant fresh(merge) && merge.Valid() && merge.lineIdCounter == |out|
      invariant |out| <= |goal| && goal[|out|..] == Run(merge.pending, |out|)
      invariant forall k | 0 <= k < |out| :: out[k] == goal[k].Record()
      decreases Total(merge.pending)
    {
      ghost var was := merge.pending;
      var rec := merge.Next();
      if rec.None? { return; }
      ghost var w := Winner(was).value;
      TotalDrops(was, w);
      assert goal[|out|..][1..] == goal[|out| + 1..];
      assert goal[|out|] == Emitted(|out|, was[w][0], w);
      out := out + [rec.value];
    }
  }
}
