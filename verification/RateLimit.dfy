/** The rate limiter that throttles operations per time slice. Fibers share one limiter and
    interleave only while they sleep, so every round of the loop in `op` is one step. */
module RateLimit {

  datatype State = State(slice: int, count: real, reportedSlice: int)

  const INITIAL := State(0, 0.0, 0)

  function SliceOf(nowMs: nat, intervalMs: int): (k: nat)
    requires intervalMs > 0
    ensures k * intervalMs <= nowMs < (k + 1) * intervalMs
  {
    DivBounds(nowMs, intervalMs);
    nowMs / intervalMs
  }

  lemma DivBounds(n: nat, d: int)
    requires d > 0
    ensures 0 <= n / d && (n / d) * d <= n < (n / d + 1) * d
  {
    assert n == (n / d) * d + n % d;
    assert (n / d + 1) * d == (n / d) * d + d;
  }

  lemma SliceMonotone(m: nat, n: nat, d: int)
    requires d > 0 && m <= n
    ensures SliceOf(m, d) <= SliceOf(n, d)
  {
    var a, b := SliceOf(m, d), SliceOf(n, d);
    if a > b {
      MulLe(b + 1, a, d);
    }
  }

  lemma MulLe(a: int, b: int, d: int)
    requires a <= b && d >= 0
    ensures a * d <= b * d
  {
  }

  /** The state with the counter of the slice that `slice` is in. */
  function Rolled(st: State, slice: int): State {
    if slice > st.slice then st.(slice := slice, count := 0.0) else st
  }

  /** One round of the loop: either the operation is admitted, or the caller pauses. */
  function Attempt(st: State, slice: int, weight: real, maxOps: real): (State, bool) {
    var r := Rolled(st, slice);
    if r.count < maxOps then
      (r.(count := r.count + weight), true)
    else
      (r.(reportedSlice := if slice > r.reportedSlice then slice else r.reportedSlice), false)
  }

  // The pause.

  function Ceil(x: real): int {
    -((-x).Floor)
  }

  function PauseMs(nowMs: nat, intervalMs: int, random: real): int
    requires intervalMs > 0
  {
    var slice := SliceOf(nowMs, intervalMs);
    var untilMs := (slice as real + 1.0 + 0.2 * random) * intervalMs as real;
    Ceil(untilMs - nowMs as real)
  }

  lemma CeilMonotone(x: real, y: real)
    requires x <= y
    ensures x <= Ceil(x) as real && Ceil(x) <= Ceil(y)
  {
  }

  lemma Distribute(a: real, b: real, k: real)
    ensures (a + b) * k == a * k + b * k
  {
  }

  lemma JitterBounds(a: real, random: real, k: real, start: real, untilMs: real, most: real)
    requires k > 0.0 && 0.0 <= random < 1.0
    requires start == a * k && untilMs == (a + 1.0 + 0.2 * random) * k && most == 1.2 * k
    ensures start + k <= untilMs <= start + most
  {
    Distribute(a, 1.0 + 0.2 * random, k);
    Distribute(1.0, 0.2 * random, k);
    assert a + 1.0 + 0.2 * random == a + (1.0 + 0.2 * random);
    Distribute(0.2 * random, 0.2 - 0.2 * random, k);
    assert (0.2 - 0.2 * random) * k >= 0.0;
    assert (0.2 * random) * k >= 0.0;
  }

  lemma CeilBounds(start: int, nowMs: nat, d: int, untilMs: real, most: real)
    requires start <= nowMs < start + d
    requires (start + d) as real <= untilMs <= start as real + most
    ensures 0 < Ceil(untilMs - nowMs as real) <= Ceil(most)
    ensures start + d <= nowMs + Ceil(untilMs - nowMs as real)
  {
    CeilMonotone(untilMs - nowMs as real, most);
  }

  lemma PauseBounds(nowMs: nat, d: int, random: real)
    requires d > 0 && 0.0 <= random < 1.0
    ensures 0 < PauseMs(nowMs, d, random) <= Ceil(1.2 * d as real)
    ensures (SliceOf(nowMs, d) + 1) * d <= nowMs + PauseMs(nowMs, d, random)
  {
    hide SliceOf, Ceil;
    var slice := SliceOf(nowMs, d);
    var start := slice * d;
    assert (slice + 1) * d == start + d;
    var untilMs := (slice as real + 1.0 + 0.2 * random) * d as real;
    var most := 1.2 * d as real;
    JitterBounds(slice as real, random, d as real, start as real, untilMs, most);
    CeilBounds(start, nowMs, d, untilMs, most);
  }

  /** The pause ends in a later slice and takes at most the interval plus 20 percent. */
  lemma PauseReachesLaterSlice(nowMs: nat, d: int, random: real, lateMs: nat)
    requires d > 0 && 0.0 <= random < 1.0
    ensures 0 < PauseMs(nowMs, d, random) <= Ceil(1.2 * d as real)
    ensures SliceOf(nowMs + PauseMs(nowMs, d, random) + lateMs, d) > SliceOf(nowMs, d)
  {
    hide PauseMs, Ceil, SliceOf;
    PauseBounds(nowMs, d, random);
    var slice, after := SliceOf(nowMs, d), SliceOf(nowMs + PauseMs(nowMs, d, random) + lateMs, d);
    if after < slice + 1 {
      MulLe(after + 1, slice + 1, d);
    }
  }

  /** The pause ends within one millisecond after a random part, up to 20 percent, of the next
      slice has passed. */
  lemma PauseIsJittered(nowMs: nat, d: int, random: real)
    requires d > 0
    ensures var jitter := 0.2 * random * d as real;
            var endMs := (nowMs + PauseMs(nowMs, d, random)) as real;
            ((SliceOf(nowMs, d) + 1) * d) as real + jitter <= endMs < ((SliceOf(nowMs, d) + 1) * d) as real + jitter + 1.0
  {
    hide SliceOf;
    var slice, k := SliceOf(nowMs, d), d as real;
    var untilMs := (slice as real + 1.0 + 0.2 * random) * k;
    Distribute(slice as real + 1.0, 0.2 * random, k);
    assert ((slice + 1) * d) as real == (slice as real + 1.0) * k;
    assert untilMs == ((slice + 1) * d) as real + 0.2 * random * k;
    CeilExactly(untilMs - nowMs as real);
  }

  lemma CeilExactly(x: real)
    ensures x <= Ceil(x) as real < x + 1.0
  {
  }

  class RateLimiter {
    const maxOps: real
    const intervalMs: int
    var slice: int
    var count: real
    var reportedSlice: int

    constructor (maxOps: real, intervalMs: int)
      ensures this.maxOps == maxOps && this.intervalMs == intervalMs && Current() == INITIAL
    {
      this.maxOps, this.intervalMs := maxOps, intervalMs;
      slice, count, reportedSlice := 0, 0.0, 0;
    }

    function Current(): State
      reads this
    {
      State(slice, count, reportedSlice)
    }

    method Round(nowMs: nat, weight: real) returns (admitted: bool)
      requires intervalMs > 0
      modifies this
      ensures (Current(), admitted) == Attempt(old(Current()), SliceOf(nowMs, intervalMs), weight, maxOps)
    {
      var now := SliceOf(nowMs, intervalMs);
      if now > slice {
        slice := now;
        count := 0.0;
      }
      if count < maxOps {
        count := count + weight;
        return true;
      }
      if now > reportedSlice {
        reportedSlice := now;
      }
      return false;
    }

    /** A lone caller: `random` gives the numbers of the jitter, and the clock is `late(i)`
        milliseconds past the end of the `i`-th pause when the caller goes on. There is a pause
        exactly if the budget of the slice is used up, and then only one. */
    method Op(nowMs: nat, weight: real, random: nat -> real, late: nat -> nat)
      returns (doneMs: nat, pauses: seq<int>)
      requires intervalMs > 0 && maxOps > 0.0 && slice <= SliceOf(nowMs, intervalMs)
      requires forall i :: 0.0 <= random(i) < 1.0
      modifies this
      ensures |pauses| <= 1
      ensures pauses == [] <==> old(slice) < SliceOf(nowMs, intervalMs) || old(count) < maxOps
      ensures pauses == [] ==> doneMs == nowMs
      ensures pauses != [] ==> 0 < pauses[0] <= Ceil(1.2 * intervalMs as real)
      ensures pauses != [] ==> doneMs == nowMs + pauses[0] + late(0)
      ensures count == weight + if old(slice) == slice then old(count) else 0.0
      ensures slice == SliceOf(doneMs, intervalMs)
    {
      doneMs, pauses := nowMs, [];
      while true
        invariant old(slice) == slice <= SliceOf(doneMs, intervalMs)
        invariant pauses == [] ==> doneMs == nowMs && count == old(count)
        invariant pauses != [] ==> |pauses| == 1 && slice < SliceOf(doneMs, intervalMs)
        invariant pauses != [] ==> old(slice) == SliceOf(nowMs, intervalMs) && old(count) >= maxOps
        invariant pauses != [] ==> 0 < pauses[0] <= Ceil(1.2 * intervalMs as real)
        invariant pauses != [] ==> doneMs == nowMs + pauses[0] + late(0)
        decreases 1 - |pauses|
      {
        hide SliceOf, PauseMs, Ceil;
        var admitted := Round(doneMs, weight);
        if admitted {
          return;
        }
        var pauseMs := PauseMs(doneMs, intervalMs, random(|pauses|));
        PauseReachesLaterSlice(doneMs, intervalMs, random(|pauses|), late(|pauses|));
        doneMs, pauses := doneMs + pauseMs + late(|pauses|), pauses + [pauseMs];
      }
    }
  }

  // Any number of fibers: the rounds in the order in which they happen.

  datatype Event = Event(slice: nat, weight: real)

  ghost predicate NonDecreasing(es: seq<Event>) {
    forall i, j :: 0 <= i < j < |es| ==> es[i].slice <= es[j].slice
  }

  function Run(es: seq<Event>, maxOps: real): State {
    if es == [] then INITIAL
    else
      var e := es[|es| - 1];
      Attempt(Run(es[..|es| - 1], maxOps), e.slice, e.weight, maxOps).0
  }

  function Admitted(es: seq<Event>, i: nat, maxOps: real): bool
    requires i < |es|
  {
    Attempt(Run(es[..i], maxOps), es[i].slice, es[i].weight, maxOps).1
  }

  /** The weight that was admitted in slice `k`. */
  function WeightIn(es: seq<Event>, k: nat, maxOps: real): real {
    if es == [] then 0.0
    else
      var n := |es| - 1;
      WeightIn(es[..n], k, maxOps) + if es[n].slice == k && Admitted(es, n, maxOps) then es[n].weight else 0.0
  }

  lemma {:induction false} NoWeightAhead(es: seq<Event>, k: nat, maxOps: real)
    requires forall e :: e in es ==> e.slice < k
    ensures WeightIn(es, k, maxOps) == 0.0
  {
    if es != [] {
      hide Run;
      assert es[|es| - 1].slice < k;
      NoWeightAhead(es[..|es| - 1], k, maxOps);
    }
  }

  /** The counter is the weight admitted in the slice of the last round. */
  lemma {:induction false} CounterIsWeight(es: seq<Event>, maxOps: real)
    requires NonDecreasing(es)
    ensures var st := Run(es, maxOps);
            && st.slice == (if es == [] then 0 else es[|es| - 1].slice)
            && st.count == WeightIn(es, st.slice, maxOps)
  {
    if es != [] {
      var n := |es| - 1;
      var e, before := es[n], es[..n];
      CounterIsWeight(before, maxOps);
      assert forall x :: x in before ==> x.slice <= if n == 0 then 0 else before[n - 1].slice;
      if e.slice > Run(before, maxOps).slice {
        NoWeightAhead(before, e.slice, maxOps);
      }
      assert Admitted(es, n, maxOps) == Attempt(Run(before, maxOps), e.slice, e.weight, maxOps).1;
    }
  }

  /** An operation is admitted if and only if the weight that its slice admitted before is
      below the budget; so the weight before the last admitted operation of a slice is. */
  lemma AdmittedExactlyWithinBudget(es: seq<Event>, i: nat, maxOps: real)
    requires NonDecreasing(es) && i < |es|
    ensures Admitted(es, i, maxOps) <==> WeightIn(es[..i], es[i].slice, maxOps) < maxOps
  {
    hide Run, WeightIn;
    var before, e := es[..i], es[i];
    CounterIsWeight(before, maxOps);
    assert forall x :: x in before ==> x.slice <= if i == 0 then 0 else before[i - 1].slice;
    if e.slice > Run(before, maxOps).slice {
      NoWeightAhead(before, e.slice, maxOps);
    }
  }

  lemma AdmittedInPrefix(es: seq<Event>, n: nat, i: nat, maxOps: real)
    requires i < n <= |es|
    ensures Admitted(es[..n], i, maxOps) == Admitted(es, i, maxOps)
  {
    assert es[..n][..i] == es[..i];
  }

  /** The reported slice is the last slice above zero in which a caller had to pause. */
  lemma {:induction false} ReportedIsLastPaused(es: seq<Event>, maxOps: real)
    requires NonDecreasing(es)
    ensures var r := Run(es, maxOps).reportedSlice;
            && (r == 0 || exists i :: 0 <= i < |es| && es[i].slice == r && !Admitted(es, i, maxOps))
            && (forall i :: 0 <= i < |es| && !Admitted(es, i, maxOps) ==> es[i].slice <= r)
  {
    if es != [] {
      var n := |es| - 1;
      var before := es[..n];
      ReportedIsLastPaused(before, maxOps);
      var r0, r := Run(before, maxOps).reportedSlice, Run(es, maxOps).reportedSlice;
      assert r == if Admitted(es, n, maxOps) || es[n].slice <= r0 then r0 else es[n].slice;
      hide Run, Admitted;
      forall i | 0 <= i < n
        ensures before[i] == es[i] && Admitted(before, i, maxOps) == Admitted(es, i, maxOps)
      {
        AdmittedInPrefix(es, n, i, maxOps);
      }
      if r != 0 && r == r0 {
        var i :| 0 <= i < n && before[i].slice == r && !Admitted(before, i, maxOps);
        assert es[i].slice == r && !Admitted(es, i, maxOps);
      }
    }
  }

  /** Round `i` prints the message. */
  predicate Reports(es: seq<Event>, i: nat, maxOps: real)
    requires i < |es|
  {
    !Admitted(es, i, maxOps) && es[i].slice > Run(es[..i], maxOps).reportedSlice
  }

  /** A time slice is reported at most once. */
  lemma ReportedOnce(es: seq<Event>, i: nat, j: nat, maxOps: real)
    requires NonDecreasing(es) && i < j < |es| && Reports(es, i, maxOps) && Reports(es, j, maxOps)
    ensures es[i].slice < es[j].slice
  {
    hide Run, Admitted;
    ReportedIsLastPaused(es[..j], maxOps);
    AdmittedInPrefix(es, j, i, maxOps);
    assert es[..j][i] == es[i];
  }

  /** A time slice in which a caller has to pause is reported, unless it is slice zero. */
  lemma {:induction false} PausedIsReported(es: seq<Event>, i: nat, maxOps: real) returns (j: nat)
    requires NonDecreasing(es) && i < |es| && !Admitted(es, i, maxOps) && es[i].slice > 0
    ensures j <= i && es[j].slice == es[i].slice && Reports(es, j, maxOps)
  {
    if Reports(es, i, maxOps) {
      j := i;
    } else {
      hide Run, Admitted;
      var before := es[..i];
      ReportedIsLastPaused(before, maxOps);
      var k :| 0 <= k < i && before[k].slice == Run(before, maxOps).reportedSlice && !Admitted(before, k, maxOps);
      AdmittedInPrefix(es, i, k, maxOps);
      j := PausedIsReported(es, k, maxOps);
    }
  }

  /** A clock that does not go back gives slices that do not go back. */
  lemma ClockOrdersSlices(es: seq<Event>, times: seq<nat>, intervalMs: int)
    requires intervalMs > 0 && |es| == |times|
    requires forall i, j :: 0 <= i < j < |times| ==> times[i] <= times[j]
    requires forall i :: 0 <= i < |es| ==> es[i].slice == SliceOf(times[i], intervalMs)
    ensures NonDecreasing(es)
  {
    forall i, j | 0 <= i < j < |es|
      ensures es[i].slice <= es[j].slice
    {
      SliceMonotone(times[i], times[j], intervalMs);
    }
  }
}
