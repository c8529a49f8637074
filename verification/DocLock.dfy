/** The lease lock that lives in the `locks` array of a MongoDB document.

    Every MongoDB update of one document is an atomic step.  Between two steps of a
    contender the clock may advance and other contenders may run.  All times are in
    milliseconds of one shared clock. */
module DocLock {

  /** One element `{ ...core, lockId, ts }`.  Cores have the same key set, so that
      `$elemMatch` by core is equality of cores. */
  datatype Elem = Elem(core: string, lockId: nat, ts: int)

  // The atomic updates of the document.

  predicate HasCore(locks: seq<Elem>, core: string) {
    exists e :: e in locks && e.core == core
  }

  predicate Owns(locks: seq<Elem>, core: string, lockId: nat) {
    exists e :: e in locks && e.core == core && e.lockId == lockId
  }

  predicate HasStale(locks: seq<Elem>, core: string, cutoff: int) {
    exists e :: e in locks && e.core == core && e.ts <= cutoff
  }

  /** `$pull` removes every element that the selector matches. */
  function Pull(locks: seq<Elem>, sel: Elem -> bool): (r: seq<Elem>)
    ensures forall e :: e in r <==> e in locks && !sel(e)
  {
    if locks == [] then []
    else if sel(locks[0]) then Pull(locks[1..], sel)
    else [locks[0]] + Pull(locks[1..], sel)
  }

  /** `$currentDate: { 'locks.$.ts': true }` sets the timestamp of the first match. */
  function Touch(locks: seq<Elem>, core: string, lockId: nat, now: int): (r: seq<Elem>)
    ensures |r| == |locks|
    ensures forall i :: 0 <= i < |r| ==> r[i].core == locks[i].core && r[i].lockId == locks[i].lockId
    ensures forall i :: 0 <= i < |r| && r[i] != locks[i] ==> r[i] == Elem(core, lockId, now)
  {
    if locks == [] then []
    else if locks[0].core == core && locks[0].lockId == lockId then [locks[0].(ts := now)] + locks[1..]
    else [locks[0]] + Touch(locks[1..], core, lockId, now)
  }

  /** At most one element per core: what the mutual exclusion of a core rests on. */
  ghost predicate Unique(locks: seq<Elem>) {
    forall i, j :: 0 <= i < j < |locks| ==> locks[i].core != locks[j].core
  }

  lemma {:induction false} PullKeepsUnique(locks: seq<Elem>, sel: Elem -> bool)
    requires Unique(locks)
    ensures Unique(Pull(locks, sel))
  {
    if locks != [] {
      assert forall e | e in locks[1..] :: e.core != locks[0].core;
      PullKeepsUnique(locks[1..], sel);
    }
  }

  function TrySet(locks: seq<Elem>, core: string, lockId: nat, ts: int): (r: seq<Elem>) {
    if HasCore(locks, core) then locks else locks + [Elem(core, lockId, ts)]
  }

  function TryExpire(locks: seq<Elem>, core: string, cutoff: int): (r: seq<Elem>) {
    if HasStale(locks, core, cutoff) then Pull(locks, (e: Elem) => e.core == core) else locks
  }

  function Release(locks: seq<Elem>, core: string, lockId: nat): (r: seq<Elem>) {
    if Owns(locks, core, lockId) then Pull(locks, (e: Elem) => e.core == core && e.lockId == lockId) else locks
  }

  function Renew(locks: seq<Elem>, core: string, lockId: nat, now: int): (r: seq<Elem>) {
    if Owns(locks, core, lockId) then Touch(locks, core, lockId, now) else locks
  }

  /** The pull by core removes exactly the stale element. */
  lemma ExpireRemovesOnlyTheStaleLock(locks: seq<Elem>, core: string, cutoff: int, e: Elem)
    requires Unique(locks)
    ensures e in locks && e !in TryExpire(locks, core, cutoff) <==> e in locks && e.core == core && e.ts <= cutoff
  {
    if e in locks && e.core == core && HasStale(locks, core, cutoff) {
      var f :| f in locks && f.core == core && f.ts <= cutoff;
      SameCoreSameElem(locks, e, f);
    }
  }

  lemma SameCoreSameElem(locks: seq<Elem>, e: Elem, f: Elem)
    requires Unique(locks) && e in locks && f in locks && e.core == f.core
    ensures e == f
  {
    var i :| 0 <= i < |locks| && locks[i] == e;
    var j :| 0 <= j < |locks| && locks[j] == f;
    assert !(i < j) && !(j < i);
  }

  /** `unlock()` and `tryRenew()` of a contender that no longer owns the lock change
      nothing, and they never touch an element of another contender. */
  lemma FormerHolderLeavesSuccessorAlone(locks: seq<Elem>, core: string, lockId: nat, now: int, e: Elem)
    requires e.core != core || e.lockId != lockId
    ensures e in locks <==> e in Release(locks, core, lockId)
    ensures e in locks <==> e in Renew(locks, core, lockId, now)
    ensures !Owns(locks, core, lockId) ==> Release(locks, core, lockId) == locks && Renew(locks, core, lockId, now) == locks
  {
    var r := Touch(locks, core, lockId, now);
    if e in locks {
      var i :| 0 <= i < |locks| && locks[i] == e;
      assert r[i] == e;
    }
    if e in r {
      var i :| 0 <= i < |r| && r[i] == e;
      assert locks[i] == e;
    }
  }

  // The lock object.

  class Document {
    var locks: seq<Elem>

    constructor ()
      ensures locks == []
    {
      locks := [];
    }
  }

  class MongoDocLock {
    const doc: Document
    const core: string
    const lockId: nat
    const renewMs: nat
    const expireMs: nat
    var nextRenewalMs: int

    constructor (doc: Document, core: string, lockId: nat, renewMs: nat, expireMs: nat)
      ensures this.doc == doc && this.core == core && this.lockId == lockId
      ensures this.renewMs == renewMs && this.expireMs == expireMs && nextRenewalMs == 0
    {
      this.doc, this.core, this.lockId := doc, core, lockId;
      this.renewMs, this.expireMs, nextRenewalMs := renewMs, expireMs, 0;
    }

    /** `t0` to `t3` are the clock readings of one uninterrupted call. */
    method TryLock(t0: int, t1: int, t2: int, t3: int) returns (ok: bool)
      requires t0 <= t1 <= t2 <= t3
      modifies this`nextRenewalMs, doc`locks
      ensures nextRenewalMs == t0 + renewMs
      ensures ok <==> !HasCore(old(doc.locks), core) || HasStale(old(doc.locks), core, t2 - expireMs)
      ensures ok ==> Owns(doc.locks, core, lockId)
      ensures !ok ==> doc.locks == old(doc.locks)
      ensures ok ==> doc.locks == Pull(old(doc.locks), (e: Elem) => e.core == core) +
                                  [Elem(core, lockId, if HasCore(old(doc.locks), core) then t3 else t1)]
    {
      nextRenewalMs := t0 + renewMs;
      if !HasCore(doc.locks, core) {
        PullNothing(doc.locks, (e: Elem) => e.core == core);
        doc.locks := TrySet(doc.locks, core, lockId, t1);
        return true;
      }
      if !HasStale(doc.locks, core, t2 - expireMs) {
        return false;
      }
      doc.locks := TryExpire(doc.locks, core, t2 - expireMs);
      ok := !HasCore(doc.locks, core);
      doc.locks := TrySet(doc.locks, core, lockId, t3);
    }

    method Unlock() returns (ok: bool)
      modifies doc`locks
      ensures ok <==> Owns(old(doc.locks), core, lockId)
      ensures doc.locks == Release(old(doc.locks), core, lockId)
      ensures !Owns(doc.locks, core, lockId)
    {
      ok := Owns(doc.locks, core, lockId);
      doc.locks := Release(doc.locks, core, lockId);
    }

    /** `serverNow` is the time at which the server runs the update. */
    method TryRenew(now: int, serverNow: int) returns (ok: bool)
      requires now <= serverNow
      modifies this`nextRenewalMs, doc`locks
      ensures now < old(nextRenewalMs) ==> ok && nextRenewalMs == old(nextRenewalMs) && doc.locks == old(doc.locks)
      ensures now >= old(nextRenewalMs) ==>
                && nextRenewalMs == now + renewMs
                && ok == Owns(old(doc.locks), core, lockId)
                && doc.locks == Renew(old(doc.locks), core, lockId, serverNow)
    {
      if now < nextRenewalMs {
        return true;
      }
      nextRenewalMs := now + renewMs;
      ok := Owns(doc.locks, core, lockId);
      doc.locks := Renew(doc.locks, core, lockId, serverNow);
    }
  }

  lemma PullNothing(locks: seq<Elem>, sel: Elem -> bool)
    requires forall e :: e in locks ==> !sel(e)
    ensures Pull(locks, sel) == locks
  {
  }

  // The protocol: any number of contenders, any interleaving.

  /** Where a contender is between two atomic steps. */
  datatype Phase =
    | Idle                           // No call in progress; holds nothing.
    | ReadTs(retry: bool)            // In `trySetLock()`, before `new Date()`.
    | WillSet(ts: int, retry: bool)  // Before the update of `trySetLock()`.
    | ReadCutoff                     // In `tryExpire()`, before `Date.now()`.
    | WillExpire(cutoff: int)        // Before the update of `tryExpire()`.
    | Held                           // The last answer was true.
    | WillRenew                      // Before the update of `tryRenew()`.

  datatype Contender = Contender(core: string, renewMs: nat, expireMs: nat, phase: Phase, nextRenewalMs: int)

  /** Contenders are keyed by their unique `lockId`. */
  datatype State = State(now: int, locks: seq<Elem>, cs: map<nat, Contender>)

  datatype Action = Tick(ms: nat) | Lock(id: nat) | Proceed(id: nat) | RenewCall(id: nat) | UnlockCall(id: nat)

  function Goto(s: State, id: nat, phase: Phase): State
    requires id in s.cs
  {
    s.(cs := s.cs[id := s.cs[id].(phase := phase)])
  }

  /** Enter a call that first computes the next renewal time from the clock. */
  function Enter(s: State, id: nat, phase: Phase): State
    requires id in s.cs
  {
    s.(cs := s.cs[id := s.cs[id].(phase := phase, nextRenewalMs := s.now + s.cs[id].renewMs)])
  }

  /** The next atomic step of a call in progress. */
  function Continue(s: State, id: nat): State
    requires id in s.cs
  {
    var c := s.cs[id];
    match c.phase
    case ReadTs(retry) => Goto(s, id, WillSet(s.now, retry))
    case WillSet(ts, retry) =>
      Goto(s.(locks := TrySet(s.locks, c.core, id, ts)), id,
           if !HasCore(s.locks, c.core) then Held else if retry then Idle else ReadCutoff)
    case ReadCutoff => Goto(s, id, WillExpire(s.now - c.expireMs))
    case WillExpire(cutoff) =>
      Goto(s.(locks := TryExpire(s.locks, c.core, cutoff)), id,
           if HasStale(s.locks, c.core, cutoff) then ReadTs(true) else Idle)
    case WillRenew =>
      Goto(s.(locks := Renew(s.locks, c.core, id, s.now)), id, if Owns(s.locks, c.core, id) then Held else Idle)
    case _ => s
  }

  function Step(s: State, a: Action): State {
    match a
    case Tick(ms) => s.(now := s.now + ms)
    case Lock(id) => if id in s.cs && s.cs[id].phase.Idle? then Enter(s, id, ReadTs(false)) else s
    case Proceed(id) => if id in s.cs then Continue(s, id) else s
    case RenewCall(id) =>
      // The cached path answers true and changes nothing.
      if id in s.cs && s.cs[id].phase.Held? && s.now >= s.cs[id].nextRenewalMs then Enter(s, id, WillRenew) else s
    case UnlockCall(id) =>
      if id in s.cs && s.cs[id].phase.Held?
      then Goto(s.(locks := Release(s.locks, s.cs[id].core, id)), id, Idle) else s
  }

  function Run(s: State, acts: seq<Action>): State {
    if acts == [] then s else Step(Run(s, acts[..|acts| - 1]), acts[|acts| - 1])
  }

  ghost predicate Init(s: State) {
    s.locks == [] && forall id | id in s.cs :: s.cs[id].phase.Idle?
  }

  ghost predicate Reachable(s0: State, s: State) {
    exists acts :: Run(s0, acts) == s
  }

  /** `tryRenew()` would answer true right now without asking MongoDB. */
  predicate CachedTrue(s: State, id: nat) {
    id in s.cs && s.cs[id].phase.Held? && s.now < s.cs[id].nextRenewalMs
  }

  predicate Owner(s: State, id: nat) {
    id in s.cs && Owns(s.locks, s.cs[id].core, id)
  }

  /** A contender that got true and has not seen false owns the lock whenever
      `tryRenew()` answers true from its cache. */
  ghost predicate CacheIsSound(s: State) {
    forall id :: CachedTrue(s, id) ==> Owner(s, id)
  }

  /** Nobody expires a lock sooner than its holder renews it. */
  ghost predicate TimingOk(s: State) {
    forall i, j | i in s.cs && j in s.cs && i != j && s.cs[i].core == s.cs[j].core :: s.cs[i].renewMs <= s.cs[j].expireMs
  }

  function Twice(s: State, id: nat): State {
    Step(Step(s, Proceed(id)), Proceed(id))
  }

  lemma TwiceSets(s: State, id: nat)
    requires id in s.cs && s.cs[id].phase.ReadTs?
    ensures var c := s.cs[id];
            var phase := if !HasCore(s.locks, c.core) then Held else if c.phase.retry then Idle else ReadCutoff;
            Twice(s, id) == Goto(s.(locks := TrySet(s.locks, c.core, id, s.now)), id, phase)
  {
    hide TrySet, HasCore;
  }

  lemma TwiceExpires(s: State, id: nat)
    requires id in s.cs && s.cs[id].phase.ReadCutoff?
    ensures var c := s.cs[id];
            var phase := if HasStale(s.locks, c.core, s.now - c.expireMs) then ReadTs(true) else Idle;
            Twice(s, id) == Goto(s.(locks := TryExpire(s.locks, c.core, s.now - c.expireMs)), id, phase)
  {
    hide TryExpire, HasStale;
  }

  lemma TwiceStays(s: State, id: nat)
    requires id in s.cs && (s.cs[id].phase.Held? || s.cs[id].phase.Idle?)
    ensures Twice(s, id) == s
  {
  }

  /** A `tryLock()` that nothing interrupts takes the steps of the protocol to the same
      answer and the same document as the method `TryLock`. */
  lemma UninterruptedLock(s: State, id: nat)
    requires id in s.cs && s.cs[id].phase.Idle?
    ensures var c := s.cs[id];
            var ok := !HasCore(s.locks, c.core) || HasStale(s.locks, c.core, s.now - c.expireMs);
            var s' := Twice(Twice(Twice(Step(s, Lock(id)), id), id), id);
            && s'.cs == s.cs[id := c.(phase := if ok then Held else Idle, nextRenewalMs := s.now + c.renewMs)]
            && s'.locks == if ok then Pull(s.locks, (e: Elem) => e.core == c.core) + [Elem(c.core, id, s.now)] else s.locks
  {
    var c, s0 := s.cs[id], Step(s, Lock(id));
    hide Twice, Step, HasStale;
    var s1, s2 := Twice(s0, id), Twice(Twice(s0, id), id);
    TwiceSets(s0, id);
    if s1.cs[id].phase.Held? {
      PullNothing(s.locks, (e: Elem) => e.core == c.core);
      TwiceStays(s1, id);
    } else {
      TwiceExpires(s1, id);
      if s2.cs[id].phase.Idle? {
        TwiceStays(s2, id);
      } else {
        TwiceSets(s2, id);
      }
    }
  }

  /** An `unlock()` step has the effect of the method `Unlock`: it removes the element of the
      contender, and no other, and ends the holding. */
  lemma UninterruptedUnlock(s: State, id: nat)
    requires id in s.cs && s.cs[id].phase.Held?
    ensures var c := s.cs[id];
            var s' := Step(s, UnlockCall(id));
            && s'.locks == Release(s.locks, c.core, id)
            && (forall e :: e in s'.locks <==> e in s.locks && !(e.core == c.core && e.lockId == id))
            && s'.now == s.now && s'.cs == s.cs[id := c.(phase := Idle)]
  {
  }

  /** What the renew update leaves. */
  lemma RenewExactly(locks: seq<Elem>, core: string, lockId: nat, now: int, e: Elem)
    requires Unique(locks)
    ensures e in Renew(locks, core, lockId, now) <==>
            if e.core == core && e.lockId == lockId then Owns(locks, core, lockId) && e.ts == now else e in locks
  {
    var r := Touch(locks, core, lockId, now);
    if e.core != core || e.lockId != lockId {
      FormerHolderLeavesSuccessorAlone(locks, core, lockId, now, e);
    } else if Owns(locks, core, lockId) {
      var f :| f in locks && f.core == core && f.lockId == lockId;
      var i :| 0 <= i < |locks| && locks[i] == f;
      TouchFirst(locks, core, lockId, now, i);
      if e in r {
        var k :| 0 <= k < |r| && r[k] == e;
        assert locks[k].core == core;
        assert !(i < k) && !(k < i);
      }
    }
  }

  lemma {:induction false} TouchFirst(locks: seq<Elem>, core: string, lockId: nat, now: int, i: nat)
    requires Unique(locks) && i < |locks| && locks[i].core == core && locks[i].lockId == lockId
    ensures Touch(locks, core, lockId, now)[i] == Elem(core, lockId, now)
  {
    if i > 0 {
      assert locks[0].core != locks[i].core;
      TouchFirst(locks[1..], core, lockId, now, i - 1);
    }
  }

  /** A `tryRenew()` that nothing interrupts takes the steps of the protocol to the same
      answer, the same document and the same next renewal time as the method `TryRenew`. */
  lemma UninterruptedRenew(s: State, id: nat)
    requires id in s.cs && s.cs[id].phase.Held? && Unique(s.locks)
    ensures var c := s.cs[id];
            var ok := Owns(s.locks, c.core, id);
            var s' := Step(Step(s, RenewCall(id)), Proceed(id));
            if s.now < c.nextRenewalMs then s' == s
            else
              && s'.locks == Renew(s.locks, c.core, id, s.now)
              && (forall e :: e in s'.locks <==>
                    if e.core == c.core && e.lockId == id then ok && e.ts == s.now else e in s.locks)
              && s'.now == s.now
              && s'.cs == s.cs[id := c.(phase := if ok then Held else Idle, nextRenewalMs := s.now + c.renewMs)]
  {
    var c := s.cs[id];
    forall e
      ensures e in Renew(s.locks, c.core, id, s.now) <==>
              if e.core == c.core && e.lockId == id then Owns(s.locks, c.core, id) && e.ts == s.now else e in s.locks
    {
      RenewExactly(s.locks, c.core, id, s.now, e);
    }
    hide Renew, Owns, Unique;
  }

  // The inductive invariant.

  ghost predicate ElemOk(s: State, e: Elem) {
    && e.lockId in s.cs && s.cs[e.lockId].core == e.core
    && (s.cs[e.lockId].phase.Held? || s.cs[e.lockId].phase.WillRenew?)
    && (s.cs[e.lockId].phase.Held? ==> s.cs[e.lockId].nextRenewalMs - s.cs[e.lockId].renewMs <= e.ts)
  }

  ghost predicate ContenderOk(s: State, id: nat)
    requires id in s.cs
  {
    var c := s.cs[id];
    var base := c.nextRenewalMs - c.renewMs;
    match c.phase
    case Idle => true
    case WillSet(ts, _) => base <= ts <= s.now
    case WillExpire(cutoff) => base <= s.now && cutoff <= s.now - c.expireMs
    case Held => CachedTrue(s, id) ==> Owner(s, id)
    case _ => base <= s.now
  }

  ghost predicate Inv(s: State) {
    && Unique(s.locks)
    && (forall e | e in s.locks :: ElemOk(s, e))
    && (forall id | id in s.cs :: ContenderOk(s, id))
  }

  lemma SetKeepsInv(s: State, id: nat)
    requires Inv(s) && id in s.cs && s.cs[id].phase.WillSet?
    ensures Inv(Continue(s, id))
  {
    var s', c := Continue(s, id), s.cs[id];
    assert forall e | e in s.locks :: e.lockId != id;
    if !HasCore(s.locks, c.core) {
      assert Elem(c.core, id, c.phase.ts) in s'.locks;
      assert Owner(s', id);
    }
    forall k | k in s'.cs ensures ContenderOk(s', k) {
      assert ContenderOk(s, k);
      if k != id && CachedTrue(s', k) {
        assert CachedTrue(s, k);
        var e :| e in s.locks && e.core == s.cs[k].core && e.lockId == k;
        assert e in s'.locks;
      }
    }
  }

  lemma ExpireKeepsInv(s: State, id: nat)
    requires Inv(s) && TimingOk(s) && id in s.cs && s.cs[id].phase.WillExpire?
    ensures Inv(Continue(s, id))
  {
    var s', c := Continue(s, id), s.cs[id];
    PullKeepsUnique(s.locks, (e: Elem) => e.core == c.core);
    forall k | k in s'.cs ensures ContenderOk(s', k) {
      assert ContenderOk(s, k);
      if k != id && CachedTrue(s', k) {
        assert CachedTrue(s, k);
        var e :| e in s.locks && e.core == s.cs[k].core && e.lockId == k;
        ExpireRemovesOnlyTheStaleLock(s.locks, c.core, c.phase.cutoff, e);
        assert ElemOk(s, e) && ContenderOk(s, id);
        assert e in s'.locks;
      }
    }
    forall e | e in s'.locks ensures ElemOk(s', e) {
      assert ElemOk(s, e);
    }
  }

  lemma {:induction false} TouchMembers(locks: seq<Elem>, core: string, lockId: nat, now: int, e: Elem)
    requires Unique(locks) && Owns(locks, core, lockId)
    ensures e in Touch(locks, core, lockId, now) <==>
            if e.core == core && e.lockId == lockId then e.ts == now else e in locks
  {
    var f :| f in locks && f.core == core && f.lockId == lockId;
    if locks[0].core == core && locks[0].lockId == lockId {
      assert forall g | g in locks[1..] :: g.core != core;
    } else {
      assert f in locks[1..];
      TouchMembers(locks[1..], core, lockId, now, e);
    }
  }

  lemma RenewKeepsInv(s: State, id: nat)
    requires Inv(s) && id in s.cs && s.cs[id].phase.WillRenew?
    ensures Inv(Continue(s, id))
    ensures Owner(s, id) == Owner(Continue(s, id), id) == Continue(s, id).cs[id].phase.Held?
  {
    var s', c := Continue(s, id), s.cs[id];
    if Owns(s.locks, c.core, id) {
      RenewedInv(s, id);
    } else {
      forall e | e in s'.locks ensures ElemOk(s', e) {
        assert ElemOk(s, e);
      }
      forall k | k in s'.cs ensures ContenderOk(s', k) {
        assert ContenderOk(s, k);
        assert k != id ==> CachedTrue(s', k) == CachedTrue(s, k);
      }
    }
  }

  lemma RenewedInv(s: State, id: nat)
    requires Inv(s) && id in s.cs && s.cs[id].phase.WillRenew? && Owner(s, id)
    ensures Inv(Continue(s, id)) && Owner(Continue(s, id), id)
  {
    var s', c := Continue(s, id), s.cs[id];
    TouchMembers(s.locks, c.core, id, s.now, Elem(c.core, id, s.now));
    assert Elem(c.core, id, s.now) in s'.locks;
    forall e | e in s'.locks ensures ElemOk(s', e) {
      TouchMembers(s.locks, c.core, id, s.now, e);
      assert ContenderOk(s, id);
      if e.core != c.core || e.lockId != id {
        assert ElemOk(s, e);
      }
    }
    forall k | k in s'.cs ensures ContenderOk(s', k) {
      assert ContenderOk(s, k);
      if k != id && CachedTrue(s', k) {
        assert CachedTrue(s, k);
        var e :| e in s.locks && e.core == s.cs[k].core && e.lockId == k;
        TouchMembers(s.locks, c.core, id, s.now, e);
        assert e in s'.locks;
      }
    }
  }

  lemma UnlockKeepsInv(s: State, id: nat)
    requires Inv(s) && id in s.cs && s.cs[id].phase.Held?
    ensures Inv(Step(s, UnlockCall(id)))
  {
    var s', c := Step(s, UnlockCall(id)), s.cs[id];
    PullKeepsUnique(s.locks, (e: Elem) => e.core == c.core && e.lockId == id);
    forall e | e in s'.locks ensures ElemOk(s', e) {
      assert ElemOk(s, e);
    }
    forall k | k in s'.cs ensures ContenderOk(s', k) {
      assert ContenderOk(s, k);
      if k != id && CachedTrue(s', k) {
        assert CachedTrue(s, k);
        var e :| e in s.locks && e.core == s.cs[k].core && e.lockId == k;
        FormerHolderLeavesSuccessorAlone(s.locks, c.core, id, s.now, e);
        assert e in s'.locks;
      }
    }
  }

  /** A step that changes neither the locks nor who holds them. */
  lemma LocalStepKeepsInv(s: State, a: Action)
    requires Inv(s)
    requires Step(s, a).locks == s.locks
    requires a.Proceed? && a.id in s.cs ==> s.cs[a.id].phase.ReadTs? || s.cs[a.id].phase.ReadCutoff?
    requires !a.UnlockCall?
    ensures Inv(Step(s, a))
  {
    var s' := Step(s, a);
    forall e | e in s'.locks ensures ElemOk(s', e) {
      assert ElemOk(s, e);
    }
    forall k | k in s'.cs ensures ContenderOk(s', k) {
      assert ContenderOk(s, k);
      if CachedTrue(s', k) && s.cs[k] == s'.cs[k] {
        assert CachedTrue(s, k);
      }
    }
  }

  lemma StepKeepsInv(s: State, a: Action)
    requires Inv(s) && TimingOk(s)
    ensures Inv(Step(s, a)) && TimingOk(Step(s, a))
  {
    if a.Proceed? && a.id in s.cs && s.cs[a.id].phase.WillSet? {
      SetKeepsInv(s, a.id);
    } else if a.Proceed? && a.id in s.cs && s.cs[a.id].phase.WillExpire? {
      ExpireKeepsInv(s, a.id);
    } else if a.Proceed? && a.id in s.cs && s.cs[a.id].phase.WillRenew? {
      RenewKeepsInv(s, a.id);
    } else if a.UnlockCall? && a.id in s.cs && s.cs[a.id].phase.Held? {
      UnlockKeepsInv(s, a.id);
    } else if Step(s, a) != s {
      LocalStepKeepsInv(s, a);
    }
  }

  lemma {:induction false} RunKeepsInv(s0: State, acts: seq<Action>)
    requires Init(s0) && TimingOk(s0)
    ensures Inv(Run(s0, acts)) && TimingOk(Run(s0, acts))
  {
    if acts != [] {
      RunKeepsInv(s0, acts[..|acts| - 1]);
      StepKeepsInv(Run(s0, acts[..|acts| - 1]), acts[|acts| - 1]);
    }
  }

  // The uniqueness of cores does not depend on the timing.

  lemma {:induction false} RunKeepsUnique(s0: State, acts: seq<Action>)
    requires Init(s0)
    ensures Unique(Run(s0, acts).locks)
  {
    if acts != [] {
      RunKeepsUnique(s0, acts[..|acts| - 1]);
      var s, a := Run(s0, acts[..|acts| - 1]), acts[|acts| - 1];
      if !a.Tick? && a.id in s.cs {
        PullKeepsUnique(s.locks, (e: Elem) => e.core == s.cs[a.id].core);
        PullKeepsUnique(s.locks, (e: Elem) => e.core == s.cs[a.id].core && e.lockId == a.id);
      }
    }
  }

  /** In every reachable state, with any timing, at most one element matches a core. */
  lemma AtMostOneLockPerCore(s0: State, s: State)
    requires Init(s0) && Reachable(s0, s)
    ensures Unique(s.locks)
  {
    var acts :| Run(s0, acts) == s;
    RunKeepsUnique(s0, acts);
  }

  /** Two contenders for one core never both get true at the same time. */
  lemma MutualExclusion(s0: State, s: State, i: nat, j: nat)
    requires Init(s0) && TimingOk(s0) && Reachable(s0, s)
    requires CachedTrue(s, i) && CachedTrue(s, j) && s.cs[i].core == s.cs[j].core
    ensures i == j
  {
    var acts :| Run(s0, acts) == s;
    RunKeepsInv(s0, acts);
    assert ContenderOk(s, i);
    OwnersAreOne(s, i, j);
  }

  /** When the update of `tryLock()` or `tryRenew()` answers true, no other contender for the
      core gets true from its cache. */
  lemma TrueAnswerExcludesOthers(s0: State, s: State, i: nat, j: nat)
    requires Init(s0) && TimingOk(s0) && Reachable(s0, s)
    requires i in s.cs && (s.cs[i].phase.WillSet? || s.cs[i].phase.WillRenew?)
    requires var s' := Step(s, Proceed(i));
             s'.cs[i].phase.Held? && CachedTrue(s', j) && s'.cs[i].core == s'.cs[j].core
    ensures i == j
  {
    var acts :| Run(s0, acts) == s;
    RunKeepsInv(s0, acts);
    StepKeepsInv(s, Proceed(i));
    var s' := Step(s, Proceed(i));
    if s.cs[i].phase.WillRenew? {
      RenewKeepsInv(s, i);
    } else {
      assert Elem(s.cs[i].core, i, s.cs[i].phase.ts) in s'.locks;
    }
    assert Owner(s', i);
    hide Step, Run;
    OwnersAreOne(s', i, j);
  }

  lemma OwnersAreOne(s: State, i: nat, j: nat)
    requires Inv(s) && Owner(s, i) && CachedTrue(s, j) && s.cs[i].core == s.cs[j].core
    ensures i == j
  {
    assert ContenderOk(s, j);
    var e :| e in s.locks && e.core == s.cs[i].core && e.lockId == i;
    var f :| f in s.locks && f.core == s.cs[j].core && f.lockId == j;
    SameCoreSameElem(s.locks, e, f);
  }

  // The timing condition is exact.

  lemma Extend(s0: State, s: State, a: Action)
    requires Reachable(s0, s)
    ensures Reachable(s0, Step(s, a))
  {
    var acts :| Run(s0, acts) == s;
    var more := acts + [a];
    assert more[..|more| - 1] == acts;
    assert Run(s0, more) == Step(s, a);
  }

  /** Contender `i` takes the free lock. */
  lemma Acquire(s0: State, i: nat) returns (s: State)
    requires Init(s0) && i in s0.cs
    ensures Reachable(s0, s) && s.now == s0.now && s.locks == [Elem(s0.cs[i].core, i, s0.now)]
    ensures s.cs == s0.cs[i := s0.cs[i].(phase := Held, nextRenewalMs := s0.now + s0.cs[i].renewMs)]
  {
    assert Run(s0, []) == s0;
    assert !HasCore(s0.locks, s0.cs[i].core);
    s := s0;
    Extend(s0, s, Lock(i));
    s := Step(s, Lock(i));
    Extend(s0, s, Proceed(i));
    s := Step(s, Proceed(i));
    Extend(s0, s, Proceed(i));
    s := Step(s, Proceed(i));
  }

  /** A contender `j` that expires before `i` renews pulls the lock from under `i`. */
  lemma LostLockStillCached(s0: State, i: nat, j: nat) returns (s: State)
    requires Init(s0) && i in s0.cs && j in s0.cs && i != j && s0.cs[i].core == s0.cs[j].core
    requires s0.cs[i].renewMs > s0.cs[j].expireMs
    ensures Reachable(s0, s) && CachedTrue(s, i) && !Owner(s, i)
  {
    hide Run, Reachable;
    s := Acquire(s0, i);
    var e := s.locks[0];
    assert e in s.locks;
    Extend(s0, s, Tick(s0.cs[j].expireMs));
    s := Step(s, Tick(s0.cs[j].expireMs));
    Extend(s0, s, Lock(j));
    s := Step(s, Lock(j));
    Extend(s0, s, Proceed(j));
    s := Step(s, Proceed(j));
    Extend(s0, s, Proceed(j));
    s := Step(s, Proceed(j));
    assert s.locks == [e];
    Extend(s0, s, Proceed(j));
    s := Step(s, Proceed(j));
    Extend(s0, s, Proceed(j));
    s := Step(s, Proceed(j));
  }

  /** The cached answer is right in every run if and only if no contender's expiry
      timeout is shorter than another contender's renewal interval. */
  lemma CacheIsSoundExactlyWithTiming(s0: State)
    requires Init(s0)
    ensures (forall s | Reachable(s0, s) :: CacheIsSound(s)) <==> TimingOk(s0)
  {
    if TimingOk(s0) {
      forall s | Reachable(s0, s) ensures CacheIsSound(s) {
        var acts :| Run(s0, acts) == s;
        RunKeepsInv(s0, acts);
        forall id | CachedTrue(s, id) ensures Owner(s, id) {
          assert ContenderOk(s, id);
        }
      }
    } else {
      var i, j :| i in s0.cs && j in s0.cs && i != j && s0.cs[i].core == s0.cs[j].core &&
                  s0.cs[i].renewMs > s0.cs[j].expireMs;
      var s := LostLockStillCached(s0, i, j);
      assert !CacheIsSound(s);
    }
  }

  /** When the renew update answers true, the lock is owned; when it answers false, the
      contender owns nothing and stops being a holder. */
  lemma RenewAnswersTruthfully(s0: State, s: State, id: nat)
    requires Init(s0) && Reachable(s0, s)
    requires id in s.cs && s.cs[id].phase.WillRenew?
    ensures var s' := Step(s, Proceed(id));
            Owner(s, id) == Owner(s', id) == s'.cs[id].phase.Held?
  {
    var acts :| Run(s0, acts) == s;
    RunKeepsUnique(s0, acts);
    if Owner(s, id) {
      var renewed := Elem(s.cs[id].core, id, s.now);
      TouchMembers(s.locks, renewed.core, id, s.now, renewed);
      assert renewed in Step(s, Proceed(id)).locks;
    }
  }
}
