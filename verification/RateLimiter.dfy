/** The token bucket that paces outgoing messages. The source computes in `f64`;
    the model uses reals. */
module RateLimiter {
  import opened Common

  datatype Bucket = Bucket(cap: real, tokens: real, perMicro: real, last: int)

  predicate Valid(b: Bucket) {
    b.cap >= 1.0 && b.perMicro > 0.0 && 0.0 <= b.tokens <= b.cap
  }

  function MinReal(a: real, b: real): real { if a <= b then a else b }

  /** Time passed since the last call, never negative. */
  function Elapsed(b: Bucket, now: int): nat { Max(SaturatingSub(now, b.last), 0) }

  function Refilled(b: Bucket, now: int): real {
    MinReal(b.tokens + Elapsed(b, now) as real * b.perMicro, b.cap)
  }

  predicate Grants(b: Bucket, now: int) { Refilled(b, now) >= 1.0 }

  function AfterTake(b: Bucket, now: int): Bucket {
    var t := Refilled(b, now);
    b.(tokens := if t >= 1.0 then t - 1.0 else t, last := now)
  }

  /** `f64::ceil`. */
  function Ceil(x: real): (n: int)
    ensures x <= n as real < x + 1.0
  {
    -((-x).Floor)
  }

  /** Microseconds until a token is free. */
  function Wait(b: Bucket, now: int): int
    requires b.perMicro > 0.0
  {
    Ceil((1.0 - Refilled(b, now)) / b.perMicro)
  }

  lemma TakeKeepsValid(b: Bucket, now: int)
    requires Valid(b)
    ensures Valid(AfterTake(b, now))
  {
    assert Elapsed(b, now) as real * b.perMicro >= 0.0;
  }

  class Limiter {
    var cap: real
    var tokens: real
    var perMicro: real
    var last: int

    function State(): Bucket
      reads this
    {
      Bucket(cap, tokens, perMicro, last)
    }

    constructor (perMinute: nat, now: int)
      ensures Valid(State()) && State() == NewBucket(perMinute, now)
    {
      var c := Max(perMinute, 1) as real;
      cap, tokens, perMicro, last := c, c, c / 60_000_000.0, now;
    }

    /** Take one token, or say how many microseconds until one is free. */
    method TryTake(now: int) returns (r: Result<(), int>)
      requires Valid(State())
      modifies this
      ensures Valid(State()) && State() == AfterTake(old(State()), now)
      ensures r == if Grants(old(State()), now) then Ok(()) else Err(Wait(old(State()), now))
    {
      TakeKeepsValid(State(), now);
      var elapsed := Max(SaturatingSub(now, last), 0) as real;
      tokens := MinReal(tokens + elapsed * perMicro, cap);
      last := now;
      if tokens >= 1.0 {
        tokens := tokens - 1.0;
        return Ok(());
      }
      r := Err(Ceil((1.0 - tokens) / perMicro));
    }
  }

  function NewBucket(perMinute: nat, now: int): Bucket {
    var c := Max(perMinute, 1) as real;
    Bucket(c, c, c / 60_000_000.0, now)
  }

  // ----- whole runs -----

  /** Call times from one moment to another on a clock that does not go back. */
  predicate Clocked(from: int, times: seq<int>, to: int)
    decreases |times|
  {
    if times == [] then from <= to else from <= times[0] && Clocked(times[0], times[1..], to)
  }

  /** How many of the takes at these times are granted, from a given state. */
  function Granted(b: Bucket, times: seq<int>): nat
    decreases |times|
  {
    if times == [] then 0
    else (if Grants(b, times[0]) then 1 else 0) + Granted(AfterTake(b, times[0]), times[1..])
  }

  function StateAfter(b: Bucket, times: seq<int>): Bucket
    decreases |times|
  {
    if times == [] then b else StateAfter(AfterTake(b, times[0]), times[1..])
  }

  /** Tokens stay within the capacity over any run, whatever the clock does. */
  lemma {:induction false} RunKeepsValid(b: Bucket, times: seq<int>)
    requires Valid(b)
    ensures Valid(StateAfter(b, times))
    ensures StateAfter(b, times).cap == b.cap && StateAfter(b, times).perMicro == b.perMicro
    decreases |times|
  {
    if times != [] {
      TakeKeepsValid(b, times[0]);
      RunKeepsValid(AfterTake(b, times[0]), times[1..]);
    }
  }

  /** The bucket after a take holds at most what is left of what it held and
      what flowed in. */
  lemma TakeBudget(b: Bucket, now: int)
    requires Valid(b)
    ensures (if Grants(b, now) then 1.0 else 0.0) + AfterTake(b, now).tokens
         <= b.tokens + Max(now - b.last, 0) as real * b.perMicro
  {
    Slower(Elapsed(b, now), Max(now - b.last, 0), b.perMicro);
  }

  lemma Slower(x: int, y: int, rate: real)
    requires x <= y && rate > 0.0
    ensures x as real * rate <= y as real * rate
  {
  }

  lemma {:induction false} ClockedBounds(from: int, times: seq<int>, to: int)
    requires Clocked(from, times, to)
    ensures from <= to
    decreases |times|
  {
    if times != [] {
      ClockedBounds(times[0], times[1..], to);
    }
  }

  /** The forward steps of a clock, which may also go back. */
  function Forward(from: int, times: seq<int>): nat
    decreases |times|
  {
    if times == [] then 0 else Max(times[0] - from, 0) + Forward(times[0], times[1..])
  }

  /** Whatever the clock does, grants are paid for by the tokens at hand and the
      inflow over its forward steps. */
  lemma {:induction false} GrantsAreBudgetedAnyClock(b: Bucket, times: seq<int>)
    requires Valid(b)
    ensures Granted(b, times) as real <= b.tokens + Forward(b.last, times) as real * b.perMicro
    decreases |times|
  {
    hide Grants, AfterTake, Granted, Forward, Valid;
    if times == [] {
      NothingGranted(b);
    } else {
      var now, rest := times[0], times[1..];
      TakeKeepsValid(b, now);
      TakeBudget(b, now);
      SameRate(b, now);
      GrantsAreBudgetedAnyClock(AfterTake(b, now), rest);
      GrantedStep(b, times);
      SplitInflow(Max(now - b.last, 0), Forward(now, rest), b.perMicro);
    }
  }

  lemma NothingGranted(b: Bucket)
    requires Valid(b)
    ensures Granted(b, []) == 0 && Forward(b.last, []) == 0 && b.tokens >= 0.0
    ensures Forward(b.last, []) as real * b.perMicro == 0.0
  {
  }

  lemma GrantedStep(b: Bucket, times: seq<int>)
    requires times != []
    ensures Granted(b, times) == (if Grants(b, times[0]) then 1 else 0) + Granted(AfterTake(b, times[0]), times[1..])
    ensures Forward(b.last, times) == Max(times[0] - b.last, 0) + Forward(times[0], times[1..])
  {
    hide Grants, AfterTake;
  }

  // ----- when a length of time bounds the grants of every bucket -----

  /** No forward step is so long that the difference of two times saturates. */
  predicate ShortSteps(from: int, times: seq<int>)
    decreases |times|
  {
    times != [] ==> times[0] - from <= I64_MAX && ShortSteps(times[0], times[1..])
  }

  predicate Bounded(b: Bucket, times: seq<int>, len: nat) {
    Granted(b, times) as real <= b.tokens + len as real * b.perMicro
  }

  /** A take with enough tokens at hand, below the cap. */
  lemma TakeGranted(b: Bucket, now: int)
    requires Valid(b) && now - b.last <= I64_MAX
    requires var inflow := Max(now - b.last, 0) as real * b.perMicro;
             1.0 <= b.tokens + inflow <= b.cap
    ensures Grants(b, now)
    ensures AfterTake(b, now).tokens == b.tokens + Max(now - b.last, 0) as real * b.perMicro - 1.0
  {
    assert Elapsed(b, now) == Max(now - b.last, 0);
  }

  /** With one token less than there are calls, the whole inflow worth one token
      and room for it, every call is granted. */
  lemma {:induction false} AllGranted(b: Bucket, times: seq<int>)
    requires Valid(b) && ShortSteps(b.last, times) && b.tokens >= |times| as real - 1.0
    requires |times| as real <= b.tokens + Forward(b.last, times) as real * b.perMicro <= b.cap
    ensures Granted(b, times) == |times|
    decreases |times|
  {
    hide Grants, AfterTake, Granted, Forward, Valid;
    if times == [] {
      NothingGranted(b);
    } else {
      var now, rest := times[0], times[1..];
      GrantedStep(b, times);
      SplitInflow(Max(now - b.last, 0), Forward(now, rest), b.perMicro);
      FacesOf(b);
      Inflow(Max(now - b.last, 0), b.perMicro);
      Inflow(Forward(now, rest), b.perMicro);
      if rest == [] { NoMore(now); }
      TakeGranted(b, now);
      TakeKeepsValid(b, now);
      SameRate(b, now);
      AllGranted(AfterTake(b, now), rest);
    }
  }

  lemma NoMore(now: int)
    ensures Forward(now, []) == 0
  {
  }

  lemma FacesOf(b: Bucket)
    requires Valid(b)
    ensures b.perMicro > 0.0 && b.tokens >= 0.0
  {
  }

  /** Every bucket is bounded over the calls by a length of time exactly when the
      clock's forward steps are no longer in all: a clock that goes back spoils the
      bound for the time that passed as soon as it makes up for it. */
  lemma BoundedIff(from: int, times: seq<int>, len: nat)
    requires ShortSteps(from, times)
    ensures (forall b | Valid(b) && b.last == from :: Bounded(b, times, len)) <==> Forward(from, times) <= len
  {
    hide Granted, Forward, ShortSteps, Valid, Bounded;
    if Forward(from, times) <= len {
      forall b | Valid(b) && b.last == from ensures Bounded(b, times, len) {
        BoundedAbove(b, times, len);
      }
    } else {
      var b := SpendsAll(from, times);
      NotBounded(b, times, len);
    }
  }

  lemma BoundedAbove(b: Bucket, times: seq<int>, len: nat)
    requires Valid(b) && Forward(b.last, times) <= len
    ensures Bounded(b, times, len)
  {
    hide Granted, Forward;
    GrantsAreBudgetedAnyClock(b, times);
    Slower(Forward(b.last, times), len, b.perMicro);
  }

  lemma NotBounded(b: Bucket, times: seq<int>, len: nat)
    requires Valid(b) && ShortSteps(b.last, times) && len < Forward(b.last, times)
    requires b.tokens == |times| as real - 1.0 && b.cap == |times| as real + 1.0
    requires Forward(b.last, times) as real * b.perMicro == 1.0
    ensures !Bounded(b, times, len)
  {
    hide Granted, Forward, ShortSteps;
    AllGranted(b, times);
    LessThanOne(len, Forward(b.last, times), b.perMicro);
  }

  /** A bucket that needs the whole inflow for its last grant. */
  lemma SpendsAll(from: int, times: seq<int>) returns (b: Bucket)
    requires Forward(from, times) > 0
    ensures Valid(b) && b.last == from && b.tokens == |times| as real - 1.0
    ensures b.cap == |times| as real + 1.0
    ensures Forward(from, times) as real * b.perMicro == 1.0
  {
    var n, all := |times| as real, Forward(from, times) as real;
    assert times != [];
    Reciprocal(all);
    b := Bucket(n + 1.0, n - 1.0, 1.0 / all, from);
  }

  lemma Reciprocal(x: real)
    requires x > 0.0
    ensures 1.0 / x > 0.0 && x * (1.0 / x) == 1.0
  {
  }

  lemma LessThanOne(len: nat, all: nat, rate: real)
    requires len < all && rate > 0.0 && all as real * rate == 1.0
    ensures len as real * rate < 1.0
  {
    LessThanProduct(len as real, all as real, rate, 1.0);
  }

  lemma LessThanProduct(x: real, y: real, rate: real, product: real)
    requires x < y && rate > 0.0 && y * rate == product
    ensures x * rate < product
  {
    assert (y - x) * rate > 0.0;
  }

  lemma {:induction false} ForwardWithin(from: int, times: seq<int>, to: int)
    requires Clocked(from, times, to)
    ensures Forward(from, times) <= to - from
    decreases |times|
  {
    if times != [] {
      ForwardWithin(times[0], times[1..], to);
    }
  }

  /** So with a clock that does not go back, grants up to a moment are paid for
      by the tokens at hand and the inflow until then. */
  lemma GrantsAreBudgeted(b: Bucket, times: seq<int>, end: int)
    requires Valid(b) && Clocked(b.last, times, end)
    ensures Granted(b, times) as real <= b.tokens + (end - b.last) as real * b.perMicro
  {
    hide Granted, Forward;
    GrantsAreBudgetedAnyClock(b, times);
    ForwardWithin(b.last, times, end);
    Slower(Forward(b.last, times), end - b.last, b.perMicro);
  }

  lemma SameRate(b: Bucket, now: int)
    ensures AfterTake(b, now).perMicro == b.perMicro && AfterTake(b, now).cap == b.cap && AfterTake(b, now).last == now
  {
  }

  lemma Inflow(x: nat, rate: real)
    requires rate > 0.0
    ensures x as real * rate >= 0.0
  {
  }

  lemma SplitInflow(x: int, y: int, rate: real)
    ensures (x + y) as real * rate == x as real * rate + y as real * rate
  {
  }

  lemma {:induction false} GrantedConcat(b: Bucket, x: seq<int>, y: seq<int>)
    ensures Granted(b, x + y) == Granted(b, x) + Granted(StateAfter(b, x), y)
    decreases |x|
  {
    if x == [] {
      assert x + y == y;
    } else {
      assert (x + y)[1..] == x[1..] + y;
      GrantedConcat(AfterTake(b, x[0]), x[1..], y);
    }
  }

  lemma {:induction false} ClockedSuffix(b: Bucket, x: seq<int>, y: seq<int>, to: int)
    requires Clocked(b.last, x + y, to)
    ensures b.last <= StateAfter(b, x).last && Clocked(StateAfter(b, x).last, y, to)
    decreases |x|
  {
    if x == [] {
      assert x + y == y;
    } else {
      assert (x + y)[1..] == x[1..] + y;
      ClockedSuffix(AfterTake(b, x[0]), x[1..], y, to);
    }
  }

  /** In any run with a clock that does not go back, the grants inside any
      interval are at most the capacity plus the rate times its length. */
  lemma GrantsInInterval(b: Bucket, earlier: seq<int>, inside: seq<int>, begin: int, end: int)
    requires Valid(b) && Clocked(b.last, earlier + inside, end)
    requires begin <= end && (inside != [] ==> begin <= inside[0])
    ensures (Granted(b, earlier + inside) - Granted(b, earlier)) as real
         <= b.cap + (end - begin) as real * b.perMicro
  {
    hide Granted, StateAfter, Clocked, Valid;
    var s := StateAfter(b, earlier);
    RunKeepsValid(b, earlier);
    GrantedConcat(b, earlier, inside);
    ClockedSuffix(b, earlier, inside, end);
    InsideBudget(s, inside, begin, end);
  }

  /** From the first call inside the interval on, the full bucket and the inflow
      pay for everything. */
  lemma InsideBudget(s: Bucket, inside: seq<int>, begin: int, end: int)
    requires Valid(s) && Clocked(s.last, inside, end)
    requires begin <= end && (inside != [] ==> begin <= inside[0])
    ensures Granted(s, inside) as real <= s.cap + (end - begin) as real * s.perMicro
  {
    hide Refilled, Grants, AfterTake;
    if inside == [] {
      Inflow(end - begin, s.perMicro);
    } else {
      var first := inside[0];
      ClockedBounds(first, inside[1..], end);
      RefillFirst(s, first);
      var full := s.(tokens := Refilled(s, first), last := first);
      GrantsAreBudgeted(full, inside, end);
      SplitInflow(end - first, first - begin, s.perMicro);
      Inflow(first - begin, s.perMicro);
    }
  }

  /** Refilling just before a call changes nothing about it. */
  lemma RefillFirst(s: Bucket, now: int)
    requires Valid(s)
    ensures var full := s.(tokens := Refilled(s, now), last := now);
            Valid(full) && Grants(full, now) == Grants(s, now) && AfterTake(full, now) == AfterTake(s, now)
  {
    assert Elapsed(s, now) as real * s.perMicro >= 0.0;
    var full := s.(tokens := Refilled(s, now), last := now);
    assert Elapsed(full, now) == 0;
  }

  // ----- the wait a refusal gives -----

  /** A refusal's wait is exactly the least whole number of microseconds after
      which a take succeeds. */
  lemma WaitIsLeast(b: Bucket, now: int, w: nat)
    requires Valid(b) && !Grants(b, now)
    requires w <= I64_MAX
    ensures Wait(b, now) >= 1
    ensures Grants(AfterTake(b, now), now + w) <==> w >= Wait(b, now)
  {
    var t := Refilled(b, now);
    TakeKeepsValid(b, now);
    assert Elapsed(AfterTake(b, now), now + w) == w;
    WaitDivides(1.0 - t, b.perMicro, w);
  }

  lemma WaitDivides(missing: real, rate: real, w: nat)
    requires 0.0 < missing && rate > 0.0
    ensures Ceil(missing / rate) >= 1
    ensures w as real * rate >= missing <==> w >= Ceil(missing / rate)
  {
    var q := missing / rate;
    assert q * rate == missing && q > 0.0;
    if w as real >= q {
      assert w as real * rate >= q * rate;
    } else {
      assert w as real * rate < q * rate;
    }
  }

  // ----- what a rate per minute means -----

  /** `n` takes at one moment. */
  function AtOnce(n: nat, now: int): (times: seq<int>)
    ensures |times| == n && forall t <- times :: t == now
  {
    seq(n, _ => now)
  }

  /** A fresh limiter lets as many through at once as it allows per minute, at
      least one, and no more. */
  lemma BurstIsPerMinute(perMinute: nat, now: int, n: nat)
    ensures Granted(NewBucket(perMinute, now), AtOnce(n, now)) == Min(n, Max(perMinute, 1))
  {
    var c := Max(perMinute, 1);
    TakesAtOnce(NewBucket(perMinute, now), c, AtOnce(n, now));
  }

  lemma {:induction false} TakesAtOnce(b: Bucket, whole: nat, times: seq<int>)
    requires Valid(b) && b.tokens == whole as real && forall t <- times :: t == b.last
    ensures Granted(b, times) == Min(|times|, whole)
    ensures StateAfter(b, times) == b.(tokens := Max(whole - |times|, 0) as real)
    decreases |times|
  {
    if times != [] {
      assert times[0] in times && forall t <- times[1..] :: t in times;
      assert Refilled(b, times[0]) == b.tokens;
      var left := Max(whole - 1, 0);
      assert AfterTake(b, times[0]) == b.(tokens := left as real);
      TakesAtOnce(AfterTake(b, times[0]), left, times[1..]);
    }
  }

  /** Once the burst is spent, a take `wait` microseconds later is granted iff
      that part of a minute, at the rate per minute, holds a whole message. */
  lemma RefillIsPerMinute(perMinute: nat, now: int, wait: nat)
    requires wait <= I64_MAX
    ensures var spent := StateAfter(NewBucket(perMinute, now), AtOnce(Max(perMinute, 1), now));
            Grants(spent, now + wait) <==> wait * Max(perMinute, 1) >= 60_000_000
  {
    var c := Max(perMinute, 1);
    var b := NewBucket(perMinute, now);
    TakesAtOnce(b, c, AtOnce(c, now));
    var spent := StateAfter(b, AtOnce(c, now));
    assert spent == b.(tokens := 0.0);
    assert Elapsed(spent, now + wait) == wait;
    OverMinute(wait, c);
    assert Grants(spent, now + wait) <==> wait as real * b.perMicro >= 1.0;
  }

  lemma OverMinute(wait: nat, c: nat)
    ensures wait as real * (c as real / 60_000_000.0) >= 1.0 <==> wait * c >= 60_000_000
  {
    var x := wait as real * (c as real / 60_000_000.0);
    assert x * 60_000_000.0 == wait as real * c as real;
    assert wait as real * c as real == (wait * c) as real;
  }

  /** A clock that goes back is paid twice: stepping back and forth across the
      same interval refills it again each time. */
  lemma ClockGoingBackWitness() returns (b: Bucket, times: seq<int>)
    ensures Valid(b) && forall t | t in times :: 0 <= t <= 60_000_000
    ensures Granted(b, times) as real > b.cap + 60_000_000.0 * b.perMicro
  {
    b := NewBucket(1, 0);
    times := [0, 60_000_000, 0, 60_000_000];
    var b1 := AfterTake(b, 0);
    assert b1 == b.(tokens := 0.0);
    var b2 := AfterTake(b1, 60_000_000);
    assert Grants(b1, 60_000_000) && b2 == b.(tokens := 0.0, last := 60_000_000);
    var b3 := AfterTake(b2, 0);
    assert b3 == b.(tokens := 0.0);
    assert Grants(b3, 60_000_000);
    assert times[1..] == [60_000_000, 0, 60_000_000];
    assert times[1..][1..] == [0, 60_000_000];
    assert times[1..][1..][1..] == [60_000_000];
    assert times[1..][1..][1..][1..] == [];
    assert Granted(b3, [60_000_000]) == 1;
    assert Granted(b2, [0, 60_000_000]) == 1;
    assert Granted(b1, [60_000_000, 0, 60_000_000]) == 2;
  }
}
