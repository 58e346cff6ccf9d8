/** Timeline zoom: the window arithmetic of the scrub cursor, and the histogram
    whose bounds it reads. Times are unbounded integers here. */
module Zoom {
  import opened Common
  import opened Decimal

  datatype Direction = In | Out

  type Window = Option<(int, int)>

  /** The bounds and the bin count of a drawn histogram; `tMax` is exclusive. */
  datatype Histogram = Histogram(counts: seq<nat>, tMin: int, tMax: int, untimed: nat)

  // ----- the histogram -----

  /** The time of a line, if the line and its time exist. */
  function TimeAt(ts: seq<int>, id: nat): Option<int> {
    if id < |ts| && ts[id] != TS_UNTIMED then Some(ts[id]) else None
  }

  predicate InWindow(ts: seq<int>, id: nat, lo: int, hi: int) {
    TimeAt(ts, id).Some? && lo <= TimeAt(ts, id).value <= hi
  }

  /** The window is cut into equal parts: the line has a time in part `b`. */
  predicate InBin(ts: seq<int>, id: nat, lo: int, hi: int, bins: nat, b: nat) {
    InWindow(ts, id, lo, hi)
    && b * (hi + 1 - lo) <= (TimeAt(ts, id).value - lo) * bins < (b + 1) * (hi + 1 - lo)
  }

  predicate IsUntimed(ts: seq<int>, id: nat) { id < |ts| && ts[id] == TS_UNTIMED }

  lemma LessThanProduct(x: nat, span: nat, bins: nat)
    requires x < span && bins > 0
    ensures 0 <= x * bins < bins * span
  {
    ScaleLe(x + 1, span, bins);
    assert (x + 1) * bins == x * bins + bins;
  }

  lemma QuotientBelow(y: nat, bins: nat, span: nat)
    requires y < bins * span && span > 0
    ensures 0 <= y / span < bins
  {
    var q, r := y / span, y % span;
    assert y == q * span + r;
    if q >= bins {
      ScaleLe(bins, q, span);
    }
  }

  lemma QuotientIs(y: nat, span: nat, b: nat)
    requires span > 0
    ensures y / span == b <==> b * span <= y < (b + 1) * span
  {
    var q, r := y / span, y % span;
    assert y == q * span + r && (q + 1) * span == q * span + span;
    if q < b {
      ScaleLe(q + 1, b, span);
    } else if b < q {
      ScaleLe(b + 1, q, span);
    }
  }

  /** The position the source computes is that of the part the time lies in. */
  lemma PositionIsBin(ts: seq<int>, id: nat, lo: int, hi: int, bins: nat, b: nat)
    requires InWindow(ts, id, lo, hi) && bins > 0
    ensures var x, span := TimeAt(ts, id).value - lo, hi + 1 - lo;
            0 <= x * bins && 0 <= x * bins / span < bins && (x * bins / span == b <==> InBin(ts, id, lo, hi, bins, b))
  {
    var x, span := TimeAt(ts, id).value - lo, hi + 1 - lo;
    LessThanProduct(x, span, bins);
    QuotientBelow(x * bins, bins, span);
    QuotientIs(x * bins, span, b);
  }

  // The places of the view whose line is in a part, in the window, or untimed.

  ghost function InPart(ts: seq<int>, view: seq<nat>, lo: int, hi: int, bins: nat, b: nat): set<nat> {
    set i: nat | i < |view| && InBin(ts, view[i], lo, hi, bins, b)
  }

  ghost function Within(ts: seq<int>, view: seq<nat>, lo: int, hi: int): set<nat> {
    set i: nat | i < |view| && InWindow(ts, view[i], lo, hi)
  }

  ghost function Untimed(ts: seq<int>, view: seq<nat>): set<nat> {
    set i: nat | i < |view| && IsUntimed(ts, view[i])
  }

  lemma GrowsBy(before: set<nat>, after: set<nat>, i: nat, hit: bool)
    requires i !in before && forall j: nat :: j in after <==> j in before || (j == i && hit)
    ensures |after| == |before| + if hit then 1 else 0
  {
    assert after == if hit then before + {i} else before;
  }

  lemma SamePlace(view: seq<nat>, i: nat, j: nat)
    requires j < i < |view|
    ensures view[..i + 1][j] == view[..i][j] == view[j]
  {
  }

  lemma PartOneMore(ts: seq<int>, view: seq<nat>, i: nat, lo: int, hi: int, bins: nat, b: nat)
    requires i < |view|
    ensures |InPart(ts, view[..i + 1], lo, hi, bins, b)|
         == |InPart(ts, view[..i], lo, hi, bins, b)| + if InBin(ts, view[i], lo, hi, bins, b) then 1 else 0
  {
    hide InBin;
    var before, after := InPart(ts, view[..i], lo, hi, bins, b), InPart(ts, view[..i + 1], lo, hi, bins, b);
    forall j: nat | j < i ensures view[..i + 1][j] == view[..i][j] == view[j] {
      SamePlace(view, i, j);
    }
    assert view[..i + 1][i] == view[i];
    GrowsBy(before, after, i, InBin(ts, view[i], lo, hi, bins, b));
  }

  lemma WithinOneMore(ts: seq<int>, view: seq<nat>, i: nat, lo: int, hi: int)
    requires i < |view|
    ensures |Within(ts, view[..i + 1], lo, hi)|
         == |Within(ts, view[..i], lo, hi)| + if InWindow(ts, view[i], lo, hi) then 1 else 0
  {
    hide InWindow;
    var before, after := Within(ts, view[..i], lo, hi), Within(ts, view[..i + 1], lo, hi);
    forall j: nat | j < i ensures view[..i + 1][j] == view[..i][j] == view[j] {
      SamePlace(view, i, j);
    }
    assert view[..i + 1][i] == view[i];
    GrowsBy(before, after, i, InWindow(ts, view[i], lo, hi));
  }

  lemma UntimedOneMore(ts: seq<int>, view: seq<nat>, i: nat)
    requires i < |view|
    ensures |Untimed(ts, view[..i + 1])| == |Untimed(ts, view[..i])| + if IsUntimed(ts, view[i]) then 1 else 0
  {
    hide IsUntimed;
    var before, after := Untimed(ts, view[..i]), Untimed(ts, view[..i + 1]);
    forall j: nat | j < i ensures view[..i + 1][j] == view[..i][j] == view[j] {
      SamePlace(view, i, j);
    }
    assert view[..i + 1][i] == view[i];
    GrowsBy(before, after, i, IsUntimed(ts, view[i]));
  }

  /** Every part has its count, and together they make up the window. */
  ghost predicate Counted(ts: seq<int>, view: seq<nat>, lo: int, hi: int, bins: nat, counts: seq<nat>) {
    |counts| == bins && Sum(counts) == |Within(ts, view, lo, hi)|
    && forall b: nat | b < bins :: counts[b] == |InPart(ts, view, lo, hi, bins, b)|
  }

  /** A line outside the window is in no part. */
  lemma CountedSkip(ts: seq<int>, view: seq<nat>, i: nat, lo: int, hi: int, bins: nat, counts: seq<nat>)
    requires i < |view| && Counted(ts, view[..i], lo, hi, bins, counts) && !InWindow(ts, view[i], lo, hi)
    ensures Counted(ts, view[..i + 1], lo, hi, bins, counts)
  {
    hide InPart, Within, InWindow, Sum;
    WithinOneMore(ts, view, i, lo, hi);
    forall b: nat | b < bins ensures counts[b] == |InPart(ts, view[..i + 1], lo, hi, bins, b)| {
      PartOneMore(ts, view, i, lo, hi, bins, b);
    }
  }

  /** A line in the window is in the part at its position. */
  lemma CountedHit(ts: seq<int>, view: seq<nat>, i: nat, lo: int, hi: int, bins: nat, counts: seq<nat>, pos: nat)
    requires i < |view| && Counted(ts, view[..i], lo, hi, bins, counts) && InWindow(ts, view[i], lo, hi) && bins > 0
    requires pos < bins && forall b: nat | b < bins :: InBin(ts, view[i], lo, hi, bins, b) <==> b == pos
    ensures Counted(ts, view[..i + 1], lo, hi, bins, counts[pos := counts[pos] + 1])
  {
    hide InPart, Within, InWindow, InBin, Sum;
    WithinOneMore(ts, view, i, lo, hi);
    SumUpdate(counts, pos);
    var after := counts[pos := counts[pos] + 1];
    forall b: nat | b < bins ensures after[b] == |InPart(ts, view[..i + 1], lo, hi, bins, b)| {
      PartOneMore(ts, view, i, lo, hi, bins, b);
    }
  }

  lemma CountedNothing(ts: seq<int>, view: seq<nat>, lo: int, hi: int, bins: nat)
    ensures Counted(ts, view[..0], lo, hi, bins, seq(bins, _ => 0)) && |Untimed(ts, view[..0])| == 0
  {
    SumZeros(bins);
    NoPlaces(ts, lo, hi, bins);
    assert view[..0] == [];
  }

  /** The position that the source computes for a time. */
  lemma PositionCounts(ts: seq<int>, id: nat, lo: int, hi: int, bins: nat)
    requires InWindow(ts, id, lo, hi) && bins > 0
    ensures var q := (TimeAt(ts, id).value - lo) * bins / (hi + 1 - lo);
            0 <= q < bins && forall b: nat | b < bins :: InBin(ts, id, lo, hi, bins, b) <==> b == q
  {
    hide InBin;
    forall b: nat | b < bins
      ensures InBin(ts, id, lo, hi, bins, b) <==> b == (TimeAt(ts, id).value - lo) * bins / (hi + 1 - lo)
    {
      PositionIsBin(ts, id, lo, hi, bins, b);
    }
    PositionIsBin(ts, id, lo, hi, bins, 0);
  }

  lemma NoPlaces(ts: seq<int>, lo: int, hi: int, bins: nat)
    ensures Within(ts, [], lo, hi) == {} && Untimed(ts, []) == {} && forall b :: InPart(ts, [], lo, hi, bins, b) == {}
  {
  }

  function Sum(s: seq<nat>): nat { if s == [] then 0 else s[0] + Sum(s[1..]) }

  lemma {:induction false} SumUpdate(s: seq<nat>, i: nat)
    requires i < |s|
    ensures Sum(s[i := s[i] + 1]) == Sum(s) + 1
  {
    if i == 0 {
      assert s[0 := s[0] + 1][1..] == s[1..];
    } else {
      assert s[i := s[i] + 1][1..] == s[1..][i - 1 := s[1..][i - 1] + 1];
      SumUpdate(s[1..], i - 1);
    }
  }

  lemma {:induction false} SumZeros(n: nat)
    ensures Sum(seq(n, _ => 0)) == 0
  {
    if n > 0 {
      assert seq(n, _ => 0)[1..] == seq(n - 1, _ => 0);
      SumZeros(n - 1);
    }
  }

  /** `build_over_range`: each part of the window counts the places of the view
      whose line has its time there, and together they make up the window. */
  method BuildOverRange(ts: seq<int>, view: seq<nat>, bins: nat, lo: int, hi: int) returns (h: Histogram)
    ensures bins == 0 || view == [] || hi < lo ==> h == Histogram([], 0, 0, 0)
    ensures bins > 0 && view != [] && lo <= hi ==>
              h.tMin == lo && h.tMax == hi + 1 && |h.counts| == bins
              && (forall b: nat | b < bins :: h.counts[b] == |InPart(ts, view, lo, hi, bins, b)|)
              && Sum(h.counts) == |Within(ts, view, lo, hi)| && h.untimed == |Untimed(ts, view)|
  {
    hide InPart, Within, Untimed, InBin, Sum;
    if bins == 0 || view == [] || hi < lo {
      return Histogram([], 0, 0, 0);
    }
    var upper := hi + 1;
    var span := Max(upper - lo, 1);
    var counts: seq<nat> := seq(bins, _ => 0);
    var untimed := 0;
    CountedNothing(ts, view, lo, hi, bins);
    for i := 0 to |view|
      invariant Counted(ts, view[..i], lo, hi, bins, counts) && untimed == |Untimed(ts, view[..i])|
    {
      var id := view[i];
      UntimedOneMore(ts, view, i);
      if !InWindow(ts, id, lo, hi) {
        CountedSkip(ts, view, i, lo, hi, bins, counts);
      }
      if id >= |ts| { continue; }
      var t := ts[id];
      if t == TS_UNTIMED {
        untimed := untimed + 1;
        continue;
      }
      if t < lo || t > hi { continue; }
      PositionCounts(ts, id, lo, hi, bins);
      var pos := Min((t - lo) * bins / span, bins - 1);
      CountedHit(ts, view, i, lo, hi, bins, counts, pos);
      counts := counts[pos := counts[pos] + 1];
    }
    assert view[..|view|] == view;
    h := Histogram(counts, lo, upper, untimed);
  }

  /** Earliest and latest time shown by the view. */
  predicate IsViewRange(ts: seq<int>, view: seq<nat>, lo: int, hi: int) {
    (exists id <- view :: TimeAt(ts, id) == Some(lo)) && (exists id <- view :: TimeAt(ts, id) == Some(hi))
    && forall id <- view :: TimeAt(ts, id).Some? ==> lo <= TimeAt(ts, id).value <= hi
  }

  method ViewRange(ts: seq<int>, view: seq<nat>) returns (lo: int, hi: int, untimed: nat)
    requires forall t | t in ts :: I64_MIN <= t <= I64_MAX
    ensures untimed == |Untimed(ts, view)|
    ensures lo == I64_MAX <==> forall id <- view :: TimeAt(ts, id).Some? ==> TimeAt(ts, id) == Some(I64_MAX)
    ensures lo != I64_MAX ==> IsViewRange(ts, view, lo, hi)
  {
    hide IsViewRange, Untimed;
    lo, hi, untimed := I64_MAX, I64_MIN, 0;
    CountedNothing(ts, view, 0, 0, 0);
    for i := 0 to |view|
      invariant untimed == |Untimed(ts, view[..i])| && lo <= I64_MAX
      invariant forall j | 0 <= j < i :: TimeAt(ts, view[j]).Some? ==> lo <= TimeAt(ts, view[j]).value <= hi
      invariant lo == I64_MAX || exists j :: 0 <= j < i && TimeAt(ts, view[j]) == Some(lo)
      invariant (hi == I64_MIN && forall j | 0 <= j < i :: TimeAt(ts, view[j]).None?)
             || exists j :: 0 <= j < i && TimeAt(ts, view[j]) == Some(hi)
    {
      var id := view[i];
      UntimedOneMore(ts, view, i);
      if id >= |ts| { continue; }
      var t := ts[id];
      assert t in ts;
      if t == TS_UNTIMED {
        untimed := untimed + 1;
        continue;
      }
      assert TimeAt(ts, view[i]) == Some(t);
      if t < lo { lo := t; }
      if t > hi { hi := t; }
    }
    assert view[..|view|] == view;
    SeenTimes(ts, view, lo, hi);
  }

  /** What holds place by place holds of the view. */
  lemma SeenTimes(ts: seq<int>, view: seq<nat>, lo: int, hi: int)
    requires (forall t | t in ts :: I64_MIN <= t <= I64_MAX) && lo <= I64_MAX
    requires forall j | 0 <= j < |view| :: TimeAt(ts, view[j]).Some? ==> lo <= TimeAt(ts, view[j]).value <= hi
    requires lo == I64_MAX || exists j :: 0 <= j < |view| && TimeAt(ts, view[j]) == Some(lo)
    requires (hi == I64_MIN && forall j | 0 <= j < |view| :: TimeAt(ts, view[j]).None?)
             || exists j :: 0 <= j < |view| && TimeAt(ts, view[j]) == Some(hi)
    ensures lo == I64_MAX <==> forall id <- view :: TimeAt(ts, id).Some? ==> TimeAt(ts, id) == Some(I64_MAX)
    ensures lo != I64_MAX ==> IsViewRange(ts, view, lo, hi)
  {
    forall id | id in view && TimeAt(ts, id).Some? ensures TimeAt(ts, id).value <= I64_MAX {
      assert ts[id] in ts;
    }
    hide TimeAt;
    if lo != I64_MAX {
      var j :| 0 <= j < |view| && TimeAt(ts, view[j]) == Some(lo);
      assert view[j] in view;
    }
  }

  lemma {:induction false} EveryLineCounted(ts: seq<int>, view: seq<nat>, i: nat, lo: int, hi: int)
    requires forall id <- view :: id < |ts| && (TimeAt(ts, id).Some? ==> InWindow(ts, id, lo, hi))
    requires i <= |view|
    ensures |Within(ts, view[..i], lo, hi)| + |Untimed(ts, view[..i])| == i
  {
    hide Within, Untimed;
    if i == 0 {
      assert view[..0] == [];
      NoPlaces(ts, lo, hi, 0);
    } else {
      EveryLineCounted(ts, view, i - 1, lo, hi);
      WithinOneMore(ts, view, i - 1, lo, hi);
      UntimedOneMore(ts, view, i - 1);
      assert view[i - 1] in view;
    }
  }

  /** `build_over`: the bounds are the earliest time and one past the latest, each
      part between them counts its places of the view, and every line of the view
      is in exactly one part or counted as untimed. */
  method BuildOver(ts: seq<int>, view: seq<nat>, bins: nat) returns (h: Histogram)
    requires forall t | t in ts :: I64_MIN <= t <= I64_MAX
    ensures bins == 0 || view == [] ==> h == Histogram([], 0, 0, 0)
    ensures bins > 0 && view != [] ==> h.untimed == |Untimed(ts, view)|
    ensures h.counts != [] ==>
              |h.counts| == bins && IsViewRange(ts, view, h.tMin, h.tMax - 1)
              && (forall b: nat | b < bins :: h.counts[b] == |InPart(ts, view, h.tMin, h.tMax - 1, bins, b)|)
              && ((forall id <- view :: id < |ts|) ==> Sum(h.counts) + h.untimed == |view|)
    ensures h.counts == [] ==>
              h.tMin == 0 == h.tMax
              && (bins > 0 ==> forall id <- view :: TimeAt(ts, id).Some? ==> TimeAt(ts, id) == Some(I64_MAX))
  {
    hide IsViewRange, InPart, Within, Untimed, InBin, Sum;
    if bins == 0 || view == [] {
      return Histogram([], 0, 0, 0);
    }
    var tMin, tMax, untimed := ViewRange(ts, view);
    if tMin == I64_MAX {
      return Histogram([], 0, 0, untimed);
    }
    RangeCovers(ts, view, tMin, tMax);
    var upper := tMax + 1;
    var span := Max(upper - tMin, 1);
    var counts: seq<nat> := seq(bins, _ => 0);
    CountedNothing(ts, view, tMin, tMax, bins);
    for i := 0 to |view|
      invariant Counted(ts, view[..i], tMin, tMax, bins, counts)
    {
      var id := view[i];
      assert id in view;
      if !InWindow(ts, id, tMin, tMax) {
        CountedSkip(ts, view, i, tMin, tMax, bins, counts);
      }
      if id >= |ts| { continue; }
      var t := ts[id];
      if t == TS_UNTIMED { continue; }
      assert TimeAt(ts, id) == Some(t);
      PositionCounts(ts, id, tMin, tMax, bins);
      var pos := Min((t - tMin) * bins / span, bins - 1);
      CountedHit(ts, view, i, tMin, tMax, bins, counts, pos);
      counts := counts[pos := counts[pos] + 1];
    }
    assert view[..|view|] == view;
    if forall id <- view :: id < |ts| {
      EveryLineCounted(ts, view, |view|, tMin, tMax);
    }
    h := Histogram(counts, tMin, upper, untimed);
  }

  lemma RangeCovers(ts: seq<int>, view: seq<nat>, lo: int, hi: int)
    requires IsViewRange(ts, view, lo, hi)
    ensures lo <= hi && forall id <- view :: TimeAt(ts, id).Some? ==> lo <= TimeAt(ts, id).value <= hi
  {
  }

  // ----- the range of the engine -----

  predicate Timed(t: int) { t != TS_UNTIMED }

  /** Earliest and latest timed record. */
  predicate IsRange(ts: seq<int>, lo: int, hi: int) {
    lo in ts && hi in ts && Timed(lo) && Timed(hi) && forall t | t in ts && Timed(t) :: lo <= t <= hi
  }

  /** The sentinel of the source is the largest time, so a file of nothing but
      that instant counts as untimed. */
  method FullRange(ts: seq<int>) returns (r: Window)
    requires forall t | t in ts :: I64_MIN <= t <= I64_MAX
    ensures r.Some? ==> IsRange(ts, r.value.0, r.value.1)
    ensures r.None? <==> forall t | t in ts && Timed(t) :: t == I64_MAX
  {
    var lo, hi := I64_MAX, I64_MIN;
    for i := 0 to |ts|
      invariant forall t | t in ts[..i] && Timed(t) :: lo <= t <= hi
      invariant lo == I64_MAX || lo in ts[..i]
      invariant I64_MIN <= lo <= I64_MAX
      invariant (hi in ts[..i] && Timed(hi)) || (hi == I64_MIN && forall t | t in ts[..i] :: !Timed(t))
      invariant lo != I64_MAX ==> Timed(lo)
    {
      var t := ts[i];
      assert ts[..i + 1] == ts[..i] + [t];
      assert t in ts;
      if t == TS_UNTIMED { continue; }
      if t < lo { lo := t; }
      if t > hi { hi := t; }
    }
    assert ts[..|ts|] == ts;
    if lo == I64_MAX {
      return None;
    }
    r := Some((lo, hi));
  }

  // ----- one zoom step, as a function -----

  /** The span asked for: half, at least one, or double. */
  function Requested(span: int, dir: Direction): int {
    if dir.In? then Max(span / 2, 1) else span * 2
  }

  /** A window of the requested span around the anchor, cut to the full span and
      pushed back inside the full range; no window when it covers everything. */
  function Clamp(anchor: int, want: int, fullLo: int, fullHi: int): (int, int) {
    var lo0, hi0 := anchor - want / 2, anchor + (want - want / 2);
    var (lo1, hi1) := if lo0 < fullLo then (fullLo, Min(hi0 + (fullLo - lo0), fullHi)) else (lo0, hi0);
    if hi1 > fullHi then (Max(lo1 - (hi1 - fullHi), fullLo), fullHi) else (lo1, hi1)
  }

  function ZoomTo(anchor: int, span: int, dir: Direction, fullLo: int, fullHi: int): Window {
    var want := Min(Requested(span, dir), fullHi - fullLo);
    var (lo, hi) := Clamp(anchor, want, fullLo, fullHi);
    if lo <= fullLo && hi >= fullHi then None else Some((lo, hi))
  }

  function SpanOf(lo: int, hi: int): (n: int)
    ensures n >= 1
  {
     Max(hi - lo, 1)
  }

  /** Wherever the anchor is, the window has the requested span, half at least one
      or double, and starts as near to half of it before the anchor as the full
      range allows; the zoom is dropped exactly when the request covers the full
      span, and an anchor inside the range stays inside the window. */
  lemma ZoomKeepsSpan(anchor: int, span: int, dir: Direction, fullLo: int, fullHi: int)
    requires span >= 1 && fullLo <= fullHi
    ensures var z := ZoomTo(anchor, span, dir, fullLo, fullHi);
            var want := if dir.In? then Max(span / 2, 1) else span * 2;
            want == Requested(span, dir)
            && (z.None? <==> want >= fullHi - fullLo)
            && (z.Some? ==> z.value.0 == Max(fullLo, Min(anchor - want / 2, fullHi - want))
                            && z.value.1 - z.value.0 == want
                            && fullLo <= z.value.0 && z.value.1 <= fullHi
                            && (fullLo <= anchor <= fullHi ==> z.value.0 <= anchor <= z.value.1))
  {
    ClampKeeps(anchor, Min(Requested(span, dir), fullHi - fullLo), fullLo, fullHi);
    hide Clamp;
  }

  lemma ClampKeeps(anchor: int, want: int, fullLo: int, fullHi: int)
    requires 0 <= want <= fullHi - fullLo
    ensures Clamp(anchor, want, fullLo, fullHi).0 == Max(fullLo, Min(anchor - want / 2, fullHi - want))
    ensures Clamp(anchor, want, fullLo, fullHi).1 == Clamp(anchor, want, fullLo, fullHi).0 + want
  {
  }

  /** The imperative form of `ZoomTo`: both ends are moved in place. */
  method WindowAround(anchor: int, curSpan: int, dir: Direction, fullLo: int, fullHi: int) returns (z: Window)
    ensures z == ZoomTo(anchor, curSpan, dir, fullLo, fullHi)
  {
    var newSpan := if dir.In? then Max(curSpan / 2, 1) else curSpan * 2;
    newSpan := Min(newSpan, fullHi - fullLo);
    assert newSpan == Min(Requested(curSpan, dir), fullHi - fullLo);
    hide Requested;
    var half := newSpan / 2;
    var newLo := anchor - half;
    var newHi := anchor + (newSpan - half);
    if newLo < fullLo {
      var shift := fullLo - newLo;
      newLo := fullLo;
      newHi := Min(newHi + shift, fullHi);
    }
    if newHi > fullHi {
      var shift := newHi - fullHi;
      newHi := fullHi;
      newLo := Max(newLo - shift, fullLo);
    }
    assert (newLo, newHi) == Clamp(anchor, newSpan, fullLo, fullHi);
    hide Clamp;
    z := if newLo <= fullLo && newHi >= fullHi then None else Some((newLo, newHi));
  }

  /** Centre of a bin: bins are `span / binCount` wide, rounded down. */
  function BinCentre(h: Histogram, bin: nat): int {
    var binSpan := Max(h.tMax - h.tMin, 1) / Max(|h.counts|, 1);
    h.tMin + bin * binSpan + binSpan / 2
  }

  lemma CentreAt(h: Histogram, bin: nat)
    ensures var w := Max(h.tMax - h.tMin, 1) / Max(|h.counts|, 1);
            BinCentre(h, bin) == h.tMin + bin * w + w / 2
  {
  }

  /** The cursor's time never leaves the drawn window, so a step from a drawn
      window that lies in the full range keeps the cursor inside the new one. */
  lemma CursorStaysInView(h: Histogram, bin: nat, dir: Direction, span: int, fullLo: int, fullHi: int)
    requires fullLo <= h.tMin < h.tMax <= fullHi + 1 && bin < Max(|h.counts|, 1) && span >= 1
    ensures h.tMin <= BinCentre(h, bin) < h.tMax
    ensures var z := ZoomTo(BinCentre(h, bin), span, dir, fullLo, fullHi);
            z.Some? ==> z.value.0 <= BinCentre(h, bin) <= z.value.1
  {
    CentreInView(h, bin);
    ZoomKeepsSpan(BinCentre(h, bin), span, dir, fullLo, fullHi);
  }

  lemma CentreInView(h: Histogram, bin: nat)
    requires h.tMin < h.tMax && bin < Max(|h.counts|, 1)
    ensures h.tMin <= BinCentre(h, bin) < h.tMax
  {
    var n, span := Max(|h.counts|, 1), h.tMax - h.tMin;
    var w := span / n;
    Below(bin, n, w, span);
  }

  /** Bin widths are rounded down for the cursor and not for the counts, so the
      time under the cursor lies in the bin it points at exactly when what the
      rounding lost up to there is no more than half a bin; else in an earlier one. */
  lemma CentreInItsBinIff(h: Histogram, bin: nat)
    requires h.tMin < h.tMax && bin < Max(|h.counts|, 1)
    ensures var n, span, x := Max(|h.counts|, 1), h.tMax - h.tMin, BinCentre(h, bin) - h.tMin;
            x * n < (bin + 1) * span && (bin * span <= x * n <==> bin * (span % n) <= span / n / 2 * n)
  {
    var n, span := Max(|h.counts|, 1), h.tMax - h.tMin;
    var w, r := span / n, span % n;
    var half := w / 2;
    assert span == w * n + r;
    Spread(bin, w, n, r);
    Gathered(bin, w, half, n);
    HalfIsLess(w, half, n, r);
    assert (bin + 1) * span == bin * span + span;
    assert bin * r >= 0 by { ScaleLe(0, bin, r); }
  }

  lemma Spread(bin: nat, w: nat, n: nat, r: nat)
    ensures bin * (w * n + r) == bin * w * n + bin * r
  {
  }

  lemma Gathered(bin: nat, w: nat, half: nat, n: nat)
    ensures (bin * w + half) * n == bin * w * n + half * n
  {
  }

  lemma HalfIsLess(w: nat, half: nat, n: nat, r: nat)
    requires half == w / 2 && n > 0 && w * n + r > 0
    ensures half * n < w * n + r
  {
    if w > 0 {
      ScaleLe(half + 1, w, n);
      assert (half + 1) * n == half * n + n;
    }
  }

  /** Ten microseconds in four bins: the centre of the last is in the third. */
  lemma CentreWitness()
    ensures var h := Histogram([0, 0, 0, 0], 0, 10, 0);
            var x := BinCentre(h, 3);
            2 * 10 <= x * 4 < 3 * 10
  {
  }

  lemma Below(bin: nat, n: nat, w: nat, span: int)
    requires bin < n && w * n <= span && span > 0
    ensures 0 <= bin * w && bin * w + w / 2 < span
  {
    ScaleLe(bin + 1, n, w);
    assert (bin + 1) * w == bin * w + w;
  }

  // ----- what is drawn -----

  /** The view shows a time that the sentinel does not hide. */
  predicate HasTime(ts: seq<int>, view: seq<nat>) {
    exists id <- view :: TimeAt(ts, id).Some? && TimeAt(ts, id) != Some(I64_MAX)
  }

  /** The bounds are the window, or the times of the view when no zoom is on. */
  predicate Drawn(ts: seq<int>, view: seq<nat>, h: Histogram, z: Window) {
    h.counts != [] &&
    match z
    case Some((lo, hi)) => lo <= hi && h.tMin == lo && h.tMax == hi + 1
    case None => IsViewRange(ts, view, h.tMin, h.tMax - 1)
  }

  lemma DrawnInRange(ts: seq<int>, view: seq<nat>, h: Histogram, z: Window, full: (int, int))
    requires Drawn(ts, view, h, z) && IsRange(ts, full.0, full.1) && Inside(z, full.0, full.1)
    ensures full.0 <= h.tMin < h.tMax <= full.1 + 1
  {
    if z.None? {
      var first :| first in view && TimeAt(ts, first) == Some(h.tMin);
      var last :| last in view && TimeAt(ts, last) == Some(h.tMax - 1);
      assert ts[first] in ts && ts[last] in ts;
    }
  }

  /** Records with a time have exactly one range. */
  lemma OnlyRange(ts: seq<int>, view: seq<nat>, range: Window, full: (int, int))
    requires HasTime(ts, view) && IsRange(ts, full.0, full.1)
    requires if range.Some? then IsRange(ts, range.value.0, range.value.1)
             else forall t | t in ts && Timed(t) :: t == I64_MAX
    ensures range == Some(full)
  {
    var id :| id in view && TimeAt(ts, id).Some? && TimeAt(ts, id) != Some(I64_MAX);
    assert ts[id] in ts;
  }

  // ----- the handler of the source -----

  datatype ScrubState = ScrubState(cursorBin: nat, zoom: Window)

  class App {
    const ts: seq<int>
    var scrub: Option<ScrubState>
    /** The histogram drawn last for the active view, if it is still valid. */
    var histogramCache: Option<Histogram>

    predicate Valid()
      reads this
    {
      forall t | t in ts :: I64_MIN <= t <= I64_MAX
    }

    constructor (ts: seq<int>)
      requires forall t | t in ts :: I64_MIN <= t <= I64_MAX
      ensures Valid() && this.ts == ts && scrub.None? && histogramCache.None?
    {
      this.ts := ts;
      scrub, histogramCache := None, None;
    }

    function Zoomed(): Window
      reads this
    {
      if scrub.Some? then scrub.value.zoom else None
    }

    predicate Agrees(view: seq<nat>)
      reads this
    {
      histogramCache.Some? && Drawn(ts, view, histogramCache.value, Zoomed())
    }

    /** `View::histogram` for an unchanged view and width: the zoomed histogram is
        built every time, the other one when there is none. */
    method Draw(view: seq<nat>, bars: nat)
      requires Valid() && bars > 0 && HasTime(ts, view)
      requires match Zoomed() case Some((lo, hi)) => lo <= hi case None => histogramCache.None? || Agrees(view)
      modifies this`histogramCache
      ensures Agrees(view)
    {
      hide IsViewRange, InPart, Within, Untimed, Sum;
      if Zoomed().Some? {
        var (lo, hi) := Zoomed().value;
        var h := BuildOverRange(ts, view, bars, lo, hi);
        histogramCache := Some(h);
      } else if histogramCache.None? {
        var h := BuildOver(ts, view, bars);
        histogramCache := Some(h);
      }
    }

    /** The bin under the cursor: clamped to the histogram, or its middle. */
    function CursorBin(binCount: nat): nat
      requires binCount > 0
      reads this
    {
      if scrub.Some? then Min(scrub.value.cursorBin, binCount - 1) else binCount / 2
    }

    /** The span the step starts from. */
    function CurrentSpan(h: Histogram): int
      reads this
    {
      match Zoomed()
      case Some((lo, hi)) => SpanOf(lo, hi)
      case None => SpanOf(h.tMin, h.tMax - 1)
    }

    /** The time under the cursor. */
    function Anchor(h: Histogram): int
      reads this
    {
      BinCentre(h, CursorBin(Max(|h.counts|, 1)))
    }

    method HandleScrubZoom(dir: Direction) returns (full: Window)
      requires Valid()
      modifies this
      ensures Valid()
      ensures full.Some? ==> IsRange(ts, full.value.0, full.value.1)
      ensures old(histogramCache).Some? ==> (full.None? <==> forall t | t in ts && Timed(t) :: t == I64_MAX)
      ensures old(histogramCache).None? || full.None? ==> scrub == old(scrub) && histogramCache == old(histogramCache)
      ensures old(histogramCache).Some? && full.Some? ==>
                Zoomed() == ZoomTo(old(Anchor(histogramCache.value)), old(CurrentSpan(histogramCache.value)), dir,
                                   full.value.0, full.value.1)
      ensures old(histogramCache).Some? && full.Some? ==>
                var h, was := old(histogramCache).value, old(scrub);
                var n := Max(|h.counts|, 1);
                var bin := if was.Some? then Min(was.value.cursorBin, n - 1) else n / 2;
                var w := Max(h.tMax - h.tMin, 1) / n;
                var span := if was.Some? && was.value.zoom.Some?
                            then was.value.zoom.value.1 - was.value.zoom.value.0 else h.tMax - 1 - h.tMin;
                Zoomed() == ZoomTo(h.tMin + bin * w + w / 2, Max(span, 1), dir, full.value.0, full.value.1)
                && scrub.Some? && scrub.value.cursorBin == (if was.Some? then was.value.cursorBin else bin)
                && histogramCache.None?
    {
      hide BinCentre, ZoomTo, IsRange;
      if histogramCache.None? { return None; }
      var h := histogramCache.value;
      var binCount := Max(|h.counts|, 1);
      var curBin := if scrub.Some? then Min(scrub.value.cursorBin, binCount - 1) else binCount / 2;
      var anchor := BinCentre(h, curBin);
      CentreAt(h, curBin);
      var (curLo, curHi) := match Zoomed() case Some(w) => w case None => (h.tMin, h.tMax - 1);
      var curSpan := Max(curHi - curLo, 1);

      full := FullRange(ts);
      if full.None? { return; }
      var newZoom := WindowAround(anchor, curSpan, dir, full.value.0, full.value.1);
      scrub := Some(if scrub.Some? then scrub.value.(zoom := newZoom) else ScrubState(curBin, newZoom));
      histogramCache := None;
    }

    /** One key press and the redraw behind it, over records from `full.0` to
        `full.1`: the time that was under the cursor is drawn again, unless the
        zoom is dropped. */
    method Press(dir: Direction, view: seq<nat>, bars: nat, ghost full: (int, int)) returns (ghost step: Step)
      requires Valid() && bars > 0 && HasTime(ts, view) && Agrees(view)
      requires IsRange(ts, full.0, full.1) && Inside(Zoomed(), full.0, full.1)
      modifies this
      ensures Agrees(view) && Inside(Zoomed(), full.0, full.1)
      ensures step.dir == dir && step.anchor == old(Anchor(histogramCache.value))
      ensures Zoomed() == After(old(Zoomed()), step, full.0, full.1)
      ensures Zoomed().Some? ==> histogramCache.value.tMin <= step.anchor < histogramCache.value.tMax
    {
      hide IsViewRange, HasTime, IsRange, BinCentre, ZoomTo, SpanOf;
      ghost var h := histogramCache.value;
      step := Step(dir, Anchor(h), h.tMax - 1 - h.tMin);
      ghost var before := Zoomed();
      DrawnInRange(ts, view, h, before, full);
      CursorStaysInView(h, CursorBin(Max(|h.counts|, 1)), dir, CurrentSpan(h), full.0, full.1);
      SameSpan(h, before, step);
      ZoomKeepsSpan(step.anchor, SpanBefore(before, step), dir, full.0, full.1);
      var range := HandleScrubZoom(dir);
      OnlyRange(ts, view, range, full);
      Draw(view, bars);
    }

    /** Any key presses, each behind a redraw: what is drawn is the window that the
        steps give, and that many zoom-outs drop the zoom, wherever the cursor is. */
    method PressKeys(dirs: seq<Direction>, view: seq<nat>, bars: nat, ghost full: (int, int))
      returns (ghost steps: seq<Step>)
      requires Valid() && bars > 0 && HasTime(ts, view) && Agrees(view)
      requires IsRange(ts, full.0, full.1) && Inside(Zoomed(), full.0, full.1)
      modifies this
      ensures Agrees(view) && Inside(Zoomed(), full.0, full.1)
      ensures |steps| == |dirs| && forall i | 0 <= i < |dirs| :: steps[i].dir == dirs[i]
      ensures Zoomed() == Run(old(Zoomed()), steps, full.0, full.1)
      ensures old(Zoomed()).Some? && (forall d <- dirs :: d.Out?)
              && |dirs| == StepsOut(SpanOf(old(Zoomed()).value.0, old(Zoomed()).value.1), full.1 - full.0)
              ==> Zoomed().None?
    {
      assert full.0 <= full.1;
      hide HasTime, IsRange, Drawn, After, SpanOf, StepsOut;
      steps := [];
      for i := 0 to |dirs|
        invariant Agrees(view) && Inside(Zoomed(), full.0, full.1)
        invariant |steps| == i && forall j | 0 <= j < i :: steps[j].dir == dirs[j]
        invariant Zoomed() == Run(old(Zoomed()), steps, full.0, full.1)
      {
        ghost var step := Press(dirs[i], view, bars, full);
        RunSnoc(old(Zoomed()), steps, step, full.0, full.1);
        steps := steps + [step];
      }
      AllOut(old(Zoomed()), dirs, steps, full);
    }
  }

  // ----- whole runs of zoom steps -----

  /** A step: its direction, where the cursor stood, and the span shown when no
      zoom was on. */
  datatype Step = Step(dir: Direction, anchor: int, viewSpan: int)

  function SpanBefore(z: Window, s: Step): int {
    match z case Some((lo, hi)) => SpanOf(lo, hi) case None => Max(s.viewSpan, 1)
  }

  function After(z: Window, s: Step, fullLo: int, fullHi: int): Window {
    ZoomTo(s.anchor, SpanBefore(z, s), s.dir, fullLo, fullHi)
  }

  function Run(z: Window, steps: seq<Step>, fullLo: int, fullHi: int): Window
    decreases |steps|
  {
    if steps == [] then z else Run(After(z, steps[0], fullLo, fullHi), steps[1..], fullLo, fullHi)
  }

  predicate Inside(z: Window, fullLo: int, fullHi: int) {
    z.Some? ==> fullLo <= z.value.0 <= z.value.1 <= fullHi && z.value.1 - z.value.0 < fullHi - fullLo
  }

  /** After any steps the window lies in the full range and is narrower. */
  lemma {:induction false} RunStaysInside(z: Window, steps: seq<Step>, fullLo: int, fullHi: int)
    requires fullLo <= fullHi && Inside(z, fullLo, fullHi)
    ensures Inside(Run(z, steps, fullLo, fullHi), fullLo, fullHi)
    decreases |steps|
  {
    if steps != [] {
      ZoomKeepsSpan(steps[0].anchor, SpanBefore(z, steps[0]), steps[0].dir, fullLo, fullHi);
      RunStaysInside(After(z, steps[0], fullLo, fullHi), steps[1..], fullLo, fullHi);
    }
  }

  // ----- zooming out -----

  function Pow2(n: nat): nat { if n == 0 then 1 else 2 * Pow2(n - 1) }

  /** Zoom-outs until the zoom is dropped, from a window of a given span. */
  function StepsOut(span: int, full: int): (n: nat)
    requires span >= 1
    ensures n >= 1
    decreases full - span
  {
    if span * 2 >= full then 1 else 1 + StepsOut(span * 2, full)
  }

  /** That number is the least `n >= 1` with `span * 2^n >= full`: the rounded-up
      binary logarithm of the ratio, and at least one. */
  lemma {:induction false} StepsOutIsLog(span: int, full: int, n: nat)
    requires span >= 1 && n >= 1
    ensures span * Pow2(n) >= full <==> n >= StepsOut(span, full)
    decreases n
  {
    assert span * Pow2(n) == span * 2 * Pow2(n - 1);
    if span * 2 >= full {
      PowPositive(n - 1);
      ScaleLe(1, Pow2(n - 1), span * 2);
    } else if n > 1 {
      StepsOutIsLog(span * 2, full, n - 1);
    }
  }

  lemma {:induction false} PowPositive(n: nat)
    ensures Pow2(n) >= 1
  {
    if n > 0 {
      PowPositive(n - 1);
    }
  }

  lemma SameSpan(h: Histogram, z: Window, step: Step)
    requires step.viewSpan == h.tMax - 1 - h.tMin
    ensures SpanBefore(z, step) == match z case Some((lo, hi)) => SpanOf(lo, hi) case None => SpanOf(h.tMin, h.tMax - 1)
  {
  }

  lemma {:induction false} RunSnoc(z: Window, steps: seq<Step>, step: Step, fullLo: int, fullHi: int)
    ensures Run(z, steps + [step], fullLo, fullHi) == After(Run(z, steps, fullLo, fullHi), step, fullLo, fullHi)
    decreases |steps|
  {
    hide After;
    if steps == [] {
      assert ([step] + [])[1..] == [];
      assert steps + [step] == [step];
    } else {
      assert (steps + [step])[1..] == steps[1..] + [step];
      RunSnoc(After(z, steps[0], fullLo, fullHi), steps[1..], step, fullLo, fullHi);
    }
  }

  lemma AllOut(z: Window, dirs: seq<Direction>, steps: seq<Step>, full: (int, int))
    requires |steps| == |dirs| && (forall i | 0 <= i < |dirs| :: steps[i].dir == dirs[i]) && full.0 <= full.1
    ensures z.Some? && (forall d <- dirs :: d.Out?) && |dirs| == StepsOut(SpanOf(z.value.0, z.value.1), full.1 - full.0)
            ==> Run(z, steps, full.0, full.1).None?
  {
    hide Run, SpanOf;
    if z.Some? && (forall d <- dirs :: d.Out?) && |dirs| == StepsOut(SpanOf(z.value.0, z.value.1), full.1 - full.0) {
      forall s | s in steps ensures s.dir.Out? {
        var i :| 0 <= i < |steps| && steps[i] == s;
        assert dirs[i] in dirs;
      }
      ZoomOutEnds(z.value.0, z.value.1, steps, full.0, full.1);
    }
  }

  /** After `n` zoom-outs from a span: doubled each time, dropped at the last. */
  predicate DoublesUntilDropped(z: Window, span: int, n: nat, full: int)
    requires span >= 1
  {
    if n == StepsOut(span, full) then z.None? else z.Some? && z.value.1 - z.value.0 == span * Pow2(n)
  }

  lemma OutStep(lo: int, hi: int, s: Step, fullLo: int, fullHi: int)
    requires fullLo <= fullHi && s.dir.Out?
    ensures var z, span, full := After(Some((lo, hi)), s, fullLo, fullHi), SpanOf(lo, hi), fullHi - fullLo;
            if z.None? then StepsOut(span, full) == 1
            else z.value.1 - z.value.0 == SpanOf(z.value.0, z.value.1) == span * 2
                 && StepsOut(span, full) == 1 + StepsOut(span * 2, full)
  {
    hide ZoomTo;
    ZoomKeepsSpan(s.anchor, SpanOf(lo, hi), Out, fullLo, fullHi);
  }

  lemma OutScale(z: Window, span: int, n: nat, full: int)
    requires span >= 1 && n >= 1 && StepsOut(span, full) == 1 + StepsOut(span * 2, full)
    requires DoublesUntilDropped(z, span * 2, n - 1, full)
    ensures DoublesUntilDropped(z, span, n, full)
  {
    hide StepsOut;
    assert span * 2 * Pow2(n - 1) == span * Pow2(n);
  }

  /** Repeated zoom-out, wherever the cursor is: the zoom stays on for fewer than
      `StepsOut` steps, doubling each time, and is dropped at exactly that step. */
  lemma {:induction false} ZoomOutEnds(lo: int, hi: int, steps: seq<Step>, fullLo: int, fullHi: int)
    requires fullLo <= fullHi && steps != [] && forall s | s in steps :: s.dir.Out?
    requires |steps| <= StepsOut(SpanOf(lo, hi), fullHi - fullLo)
    ensures DoublesUntilDropped(Run(Some((lo, hi)), steps, fullLo, fullHi), SpanOf(lo, hi), |steps|, fullHi - fullLo)
    decreases |steps|
  {
    hide After, SpanOf, StepsOut, DoublesUntilDropped;
    var span, full := SpanOf(lo, hi), fullHi - fullLo;
    var z := After(Some((lo, hi)), steps[0], fullLo, fullHi);
    assert steps[0] in steps;
    OutStep(lo, hi, steps[0], fullLo, fullHi);
    if |steps| == 1 {
      OneStepOut(z, lo, hi, full);
    } else {
      ZoomOutEnds(z.value.0, z.value.1, steps[1..], fullLo, fullHi);
      OutScale(Run(z, steps[1..], fullLo, fullHi), span, |steps|, full);
    }
  }

  lemma OneStepOut(z: Window, lo: int, hi: int, full: int)
    requires var span := SpanOf(lo, hi);
             if z.None? then StepsOut(span, full) == 1
             else z.value.1 - z.value.0 == span * 2 && StepsOut(span, full) == 1 + StepsOut(span * 2, full)
    ensures DoublesUntilDropped(z, SpanOf(lo, hi), 1, full)
  {
    assert Pow2(1) == 2;
  }
}
