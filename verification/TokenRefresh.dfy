/** The call credentials that keep a JSON Web Token and refresh it before it expires. */
module TokenRefresh {
  import opened Wrappers

  datatype Timing = Timing(expiresInS: int, refreshPeriodS: int)
  datatype Options = Options(expiresInS: Option<int>, refreshPeriodS: Option<int>)

  const DEFAULTS := Timing(600, 300)
  const REFRESH_PERIOD_PCT := 50
  const BACKDATE_S := 5

  /** A value that the source takes as given: present and not zero. */
  predicate Given(x: Option<int>) {
    x.Some? && x.value != 0
  }

  function CeilDiv(a: int, b: int): int
    requires b > 0
  {
    -((-a) / b)
  }

  function ParseTiming(opts: Option<Options>): Timing {
    if opts.None? || !Given(opts.value.expiresInS) then DEFAULTS
    else
      var expiresInS := opts.value.expiresInS.value;
      Timing(expiresInS,
             if Given(opts.value.refreshPeriodS) then opts.value.refreshPeriodS.value
             else CeilDiv(REFRESH_PERIOD_PCT * expiresInS, 100))
  }

  /** The expiration time, in seconds, of a token that is signed at `signMs`. */
  function Exp(signMs: nat, expiresInS: int): int {
    signMs / 1000 - BACKDATE_S + expiresInS
  }

  /** The current time must be before the expiration time, section 4.1.4 of RFC 7519. */
  predicate Unexpired(exp: int, nowMs: nat) {
    nowMs < 1000 * exp
  }

  /** A token stands for its expiration time. */
  datatype State = State(token: Option<int>, refreshAtMs: int)

  const INITIAL := State(None, 0)

  /** A call at `nowMs`; a token that it has to issue is signed at `signMs`. */
  datatype Call = Call(nowMs: nat, signMs: nat)

  predicate Refreshes(st: State, call: Call) {
    st.token.None? || call.nowMs > st.refreshAtMs
  }

  function GenStep(t: Timing, st: State, call: Call): State {
    if Refreshes(st, call) then
      State(Some(Exp(call.signMs, t.expiresInS)), call.nowMs + t.refreshPeriodS * 1000)
    else
      st
  }

  class CallCreds {
    const timing: Timing
    var token: Option<int>
    var refreshAtMs: int

    constructor (opts: Option<Options>)
      ensures timing == ParseTiming(opts) && Current() == INITIAL
    {
      timing := ParseTiming(opts);
      token, refreshAtMs := None, 0;
    }

    function Current(): State
      reads this
    {
      State(token, refreshAtMs)
    }

    /** Returns the token that goes into the metadata of the call. */
    method Gen(call: Call) returns (exp: int)
      modifies this
      ensures Current() == GenStep(timing, old(Current()), call)
      ensures token == Some(exp)
    {
      if token.None? || call.nowMs > refreshAtMs {
        token := Some(Exp(call.signMs, timing.expiresInS));
        refreshAtMs := call.nowMs + timing.refreshPeriodS * 1000;
      }
      exp := token.value;
    }
  }

  // Any number of calls.

  /** The clock does not go back. */
  ghost predicate Ordered(calls: seq<Call>) {
    && (forall i :: 0 <= i < |calls| ==> calls[i].nowMs <= calls[i].signMs)
    && (forall i, j :: 0 <= i < j < |calls| ==> calls[i].signMs <= calls[j].nowMs)
  }

  function Run(t: Timing, calls: seq<Call>): State {
    if calls == [] then INITIAL else GenStep(t, Run(t, calls[..|calls| - 1]), calls[|calls| - 1])
  }

  /** The token that the last call gets is unexpired when the call gets it. */
  predicate LastIsUnexpired(t: Timing, calls: seq<Call>)
    requires calls != []
  {
    var n := |calls| - 1;
    var handedMs := if Refreshes(Run(t, calls[..n]), calls[n]) then calls[n].signMs else calls[n].nowMs;
    Run(t, calls).token.Some? && Unexpired(Run(t, calls).token.value, handedMs)
  }

  /** The token of every call of every run is unexpired. */
  ghost predicate Safe(t: Timing) {
    forall calls :: calls != [] && Ordered(calls) ==> LastIsUnexpired(t, calls)
  }

  /** The token outlives the refresh time by what the timing leaves, except for the backdating
      and the rounding to seconds. */
  ghost predicate Outlives(t: Timing, st: State) {
    st.token.Some? ==> 1000 * st.token.value >= st.refreshAtMs + 1000 * (t.expiresInS - t.refreshPeriodS) - 5999
  }

  lemma {:induction false} RunOutlives(t: Timing, calls: seq<Call>)
    requires Ordered(calls)
    ensures Outlives(t, Run(t, calls))
  {
    if calls != [] {
      RunOutlives(t, calls[..|calls| - 1]);
    }
  }

  lemma CallsAreUnexpired(t: Timing, calls: seq<Call>)
    requires t.expiresInS >= 6 && t.refreshPeriodS <= t.expiresInS - 6
    requires calls != [] && Ordered(calls)
    ensures LastIsUnexpired(t, calls)
  {
    var before := calls[..|calls| - 1];
    RunOutlives(t, before);
  }

  /** Signed at the end of a second, the token of the first call loses all of it; the last
      call before the refresh still gets that token. */
  lemma LatestCallGetsExpired(t: Timing)
    requires t.expiresInS >= 6 && t.refreshPeriodS > t.expiresInS - 6
    ensures var calls := [Call(999, 999), Call(999 + 1000 * t.refreshPeriodS, 999 + 1000 * t.refreshPeriodS)];
            Ordered(calls) && !LastIsUnexpired(t, calls)
  {
    var late := 999 + 1000 * t.refreshPeriodS;
    var calls := [Call(999, 999), Call(late, late)];
    assert calls[..1] == [Call(999, 999)];
    assert [Call(999, 999)][..0] == [];
    assert Run(t, calls[..1]) == State(Some(t.expiresInS - 5), late);
  }

  lemma FirstCallGetsExpired(t: Timing)
    requires t.expiresInS < 6
    ensures Ordered([Call(999, 999)]) && !LastIsUnexpired(t, [Call(999, 999)])
  {
    var calls := [Call(999, 999)];
    assert calls[..0] == [];
    assert Run(t, calls) == State(Some(t.expiresInS - 5), 999 + t.refreshPeriodS * 1000);
  }

  /** Every token that is handed to a call is unexpired, whatever the times of the calls, if
      and only if the token lives at least 6 seconds, which are the backdating of 5 seconds and
      the rounding, and the refresh period leaves these 6 seconds. */
  lemma SafeExactly(t: Timing)
    ensures Safe(t) <==> t.expiresInS >= 6 && t.refreshPeriodS <= t.expiresInS - 6
  {
    hide Ordered, LastIsUnexpired;
    if t.expiresInS < 6 {
      FirstCallGetsExpired(t);
    } else if t.refreshPeriodS > t.expiresInS - 6 {
      LatestCallGetsExpired(t);
    } else {
      forall calls | calls != [] && Ordered(calls)
        ensures LastIsUnexpired(t, calls)
      {
        CallsAreUnexpired(t, calls);
      }
    }
  }

  /** A timing that is given in full is used as it is. */
  lemma GivenTimingIsSafeExactly(opts: Options)
    requires Given(opts.expiresInS) && Given(opts.refreshPeriodS)
    ensures ParseTiming(Some(opts)) == Timing(opts.expiresInS.value, opts.refreshPeriodS.value)
    ensures Safe(ParseTiming(Some(opts))) <==>
            opts.expiresInS.value >= 6 && opts.refreshPeriodS.value <= opts.expiresInS.value - 6
  {
    hide Safe;
    SafeExactly(ParseTiming(Some(opts)));
  }

  /** The refresh period that is derived is half of the lifetime, rounded up.  It is safe if
      and only if the lifetime is at least 12 seconds. */
  lemma DerivedPeriodIsSafeExactly(opts: Options)
    requires Given(opts.expiresInS) && !Given(opts.refreshPeriodS)
    ensures var t := ParseTiming(Some(opts));
            t.expiresInS == opts.expiresInS.value && t.expiresInS <= 2 * t.refreshPeriodS <= t.expiresInS + 1
    ensures Safe(ParseTiming(Some(opts))) <==> opts.expiresInS.value >= 12
  {
    hide Safe;
    SafeExactly(ParseTiming(Some(opts)));
  }

  /** Without a lifetime, or with a lifetime of zero, the defaults apply and are safe; a given
      refresh period is then ignored. */
  lemma DefaultsAreSafe(opts: Option<Options>)
    requires opts.None? || !Given(opts.value.expiresInS)
    ensures ParseTiming(opts) == Timing(600, 300) && Safe(ParseTiming(opts))
  {
    hide Safe;
    SafeExactly(DEFAULTS);
  }
}
