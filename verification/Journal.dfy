/** Observers that follow the event journal of a registry.

    An observer applies an event to the repos collection and then advances the tail in
    the registry document by compare-and-set.  It may crash at any point between two
    atomic steps and reconnect later. */
module Journal {
  import opened Wrappers

  type Vid = string
  type RepoId = string
  type Name = string
  type Repos = map<RepoId, Name>

  datatype Change =
    | RepoAdded(id: RepoId, name: Name)
    | RepoMoved(id: RepoId, name: Name)
    | OtherChange

  datatype Event = Event(vid: Vid, change: Change)

  /** The journal as the server streams it: event ids are unique. */
  predicate Unique(j: seq<Event>) {
    forall a, b :: 0 <= a < b < |j| ==> j[a].vid != j[b].vid
  }

  // The effect of one event on the repos collection, which has unique indexes on ids and
  // on names.

  predicate NameFree(repos: Repos, id: RepoId, name: Name) {
    forall r | r in repos && r != id :: repos[r] != name
  }

  function Apply(repos: Repos, c: Change): Repos {
    match c
    case RepoAdded(id, name) =>
      // A duplicate key error of the insert is ignored.
      if id in repos || !NameFree(repos, id, name) then repos else repos[id := name]
    case RepoMoved(id, name) =>
      if id in repos && NameFree(repos, id, name) then repos[id := name] else repos
    case OtherChange => repos
  }

  /** Whether `applyEvent()` returns; `rpcOk` says whether its remote calls succeed. */
  predicate Applies(repos: Repos, c: Change, rpcOk: bool) {
    match c
    case RepoAdded(id, name) => rpcOk && id in Apply(repos, c)
    case RepoMoved(id, name) => id in repos && NameFree(repos, id, name)
    case OtherChange => rpcOk
  }

  /** What the collection should hold after a journal prefix. */
  function Fold(j: seq<Event>): Repos {
    if j == [] then map[]
    else
      var rest := Fold(j[..|j| - 1]);
      match j[|j| - 1].change
      case RepoAdded(id, name) => rest[id := name]
      case RepoMoved(id, name) => rest[id := name]
      case OtherChange => rest
  }

  /** What the collection should hold after the first `k` events. */
  function FoldAt(j: seq<Event>, k: nat): Repos
    requires k <= |j|
  {
    Fold(j[..k])
  }

  /** Repos are added once, moved only if they exist, and live names are unique. */
  predicate WellFormed(j: seq<Event>) {
    j == [] ||
    var rest := j[..|j| - 1];
    WellFormed(rest) &&
    match j[|j| - 1].change
    case RepoAdded(id, name) => id !in Fold(rest) && NameFree(Fold(rest), id, name)
    case RepoMoved(id, name) => id in Fold(rest) && NameFree(Fold(rest), id, name)
    case OtherChange => true
  }

  // The protocol.

  datatype Observer = Observer(live: bool, tail: Option<Vid>, next: nat, pending: bool)

  /** `stored` is the tail in the registry document.  `applied` records the journal
      positions whose event has been applied at least once. */
  datatype State = State(stored: Option<Vid>, repos: Repos, obs: map<nat, Observer>, applied: set<nat>)

  datatype Action = Connect(o: nat) | ApplyNext(o: nat, rpcOk: bool) | UpdateTail(o: nat) | Crash(o: nat)

  /** The number of events up to and including the tail. */
  function Pos(j: seq<Event>, tail: Option<Vid>): nat
    ensures Pos(j, tail) <= |j|
  {
    if j == [] || tail.None? then 0
    else if j[|j| - 1].vid == tail.value then |j|
    else Pos(j[..|j| - 1], tail)
  }

  function Step(j: seq<Event>, s: State, a: Action): State {
    if a.o !in s.obs then s else
    var ob := s.obs[a.o];
    match a
    case Connect(o) =>
      if ob.live then s else s.(obs := s.obs[o := Observer(true, s.stored, Pos(j, s.stored), false)])
    case ApplyNext(o, rpcOk) =>
      if !ob.live || ob.pending || ob.next >= |j| then s else
      var c := j[ob.next].change;
      var s1 := s.(repos := Apply(s.repos, c));
      if Applies(s.repos, c, rpcOk)
      then s1.(obs := s.obs[o := ob.(pending := true)], applied := s.applied + {ob.next})
      else s1.(obs := s.obs[o := ob.(live := false)])
    case UpdateTail(o) =>
      if !ob.live || !ob.pending || ob.next >= |j| then s
      else if s.stored == ob.tail then
        var vid := Some(j[ob.next].vid);
        s.(stored := vid, obs := s.obs[o := Observer(true, vid, ob.next + 1, false)])
      else s.(obs := s.obs[o := ob.(live := false)])
    case Crash(o) => s.(obs := s.obs[o := ob.(live := false)])
  }

  function Run(j: seq<Event>, s: State, acts: seq<Action>): State {
    if acts == [] then s else Step(j, Run(j, s, acts[..|acts| - 1]), acts[|acts| - 1])
  }

  predicate Init(s: State) {
    s.stored == None && s.repos == map[] && s.applied == {} && forall o | o in s.obs :: !s.obs[o].live
  }

  lemma {:induction false} PosOfEvent(j: seq<Event>, k: nat)
    requires Unique(j) && k < |j|
    ensures Pos(j, Some(j[k].vid)) == k + 1
  {
    if k < |j| - 1 {
      PosOfEvent(j[..|j| - 1], k);
    }
  }

  /** Holds for any number of observers. */
  predicate Inv(j: seq<Event>, s: State) {
    && (forall k :: 0 <= k < Pos(j, s.stored) ==> k in s.applied)
    && forall o | o in s.obs && s.obs[o].live ::
         s.obs[o].next == Pos(j, s.obs[o].tail) && (s.obs[o].pending ==> s.obs[o].next in s.applied)
  }

  lemma StepKeepsInv(j: seq<Event>, s: State, a: Action)
    requires Unique(j) && Inv(j, s)
    ensures Inv(j, Step(j, s, a))
    ensures Pos(j, s.stored) <= Pos(j, Step(j, s, a).stored) <= Pos(j, s.stored) + 1
    ensures Step(j, s, a).stored != s.stored ==> Pos(j, Step(j, s, a).stored) == Pos(j, s.stored) + 1
    ensures s.applied <= Step(j, s, a).applied
  {
    if a.UpdateTail? && a.o in s.obs && s.obs[a.o].next < |j| {
      PosOfEvent(j, s.obs[a.o].next);
    }
  }

  lemma {:induction false} RunKeepsInv(j: seq<Event>, s0: State, acts: seq<Action>)
    requires Unique(j) && Init(s0)
    ensures Inv(j, Run(j, s0, acts))
  {
    if acts != [] {
      RunKeepsInv(j, s0, acts[..|acts| - 1]);
      StepKeepsInv(j, Run(j, s0, acts[..|acts| - 1]), acts[|acts| - 1]);
    }
  }

  // What it means that an event has been applied, in terms of the steps of a run.

  /** With action `a`, an observer handles event `k`. */
  predicate Handles(s: State, a: Action, k: nat) {
    a.ApplyNext? && a.o in s.obs && s.obs[a.o].live && !s.obs[a.o].pending && s.obs[a.o].next == k
  }

  /** What `applyEvent()` should have achieved when it returns: the remote calls of an event
      that needs them succeeded, an added repo is in the collection, and a moved repo is there
      under its new name. */
  predicate Achieved(c: Change, rpcOk: bool, after: Repos) {
    match c
    case RepoAdded(id, _) => rpcOk && id in after
    case RepoMoved(id, name) => id in after && after[id] == name
    case OtherChange => rpcOk
  }

  predicate UniqueNames(repos: Repos) {
    forall p, q | p in repos && q in repos && p != q :: repos[p] != repos[q]
  }

  lemma UpdatedNames(repos: Repos, id: RepoId, name: Name)
    requires UniqueNames(repos)
    ensures UniqueNames(repos[id := name]) <==> NameFree(repos, id, name)
  {
    var repos' := repos[id := name];
    if UniqueNames(repos') {
      forall r | r in repos && r != id ensures repos[r] != name {
        assert repos'[r] != repos'[id];
      }
    }
  }

  /** The unique indexes decide what an event does: an insert takes effect exactly if neither
      the id nor the name exists, an update exactly if the id exists and the name is not taken. */
  lemma ApplyIsIndexed(repos: Repos, c: Change)
    requires UniqueNames(repos)
    ensures UniqueNames(Apply(repos, c))
    ensures c.OtherChange? ==> Apply(repos, c) == repos
    ensures !c.OtherChange? ==>
              var updated := repos[c.id := c.name];
              var takes := (c.RepoAdded? <==> c.id !in repos) && UniqueNames(updated);
              Apply(repos, c) == if takes then updated else repos
  {
    if !c.OtherChange? {
      UpdatedNames(repos, c.id, c.name);
    }
  }

  /** `applyEvent()` returns exactly if it has achieved what it should. */
  lemma AppliesExactly(repos: Repos, c: Change, rpcOk: bool)
    requires UniqueNames(repos)
    ensures Applies(repos, c, rpcOk) <==> Achieved(c, rpcOk, Apply(repos, c))
  {
    if c.RepoMoved? && c.id in repos && repos[c.id] == c.name {
      assert NameFree(repos, c.id, c.name);
    }
  }

  /** In every run the names in the collection are unique. */
  lemma {:induction false} NamesStayUnique(j: seq<Event>, s0: State, acts: seq<Action>)
    requires Init(s0)
    ensures UniqueNames(Run(j, s0, acts).repos)
  {
    if acts != [] {
      var s, a := Run(j, s0, acts[..|acts| - 1]), acts[|acts| - 1];
      NamesStayUnique(j, s0, acts[..|acts| - 1]);
      if a.ApplyNext? && a.o in s.obs && s.obs[a.o].next < |j| {
        ApplyIsIndexed(s.repos, j[s.obs[a.o].next].change);
      }
      hide Apply, Applies, UniqueNames;
    }
  }

  /** In every run: the observer that handles an event goes on, with the event pending,
      exactly if the event has achieved what it should, and its stream is cancelled otherwise.
      The stored tail stays. */
  lemma HandlingIsExact(j: seq<Event>, s0: State, acts: seq<Action>, a: Action, k: nat)
    requires Init(s0) && k < |j| && Handles(Run(j, s0, acts), a, k)
    ensures var s := Run(j, s0, acts);
            var s' := Step(j, s, a);
            && s'.stored == s.stored
            && s'.obs.Keys == s.obs.Keys
            && (s'.obs[a.o].live <==> Achieved(j[k].change, a.rpcOk, s'.repos))
            && (s'.obs[a.o].live ==> s'.obs[a.o].pending && s'.obs[a.o].next == k)
  {
    NamesStayUnique(j, s0, acts);
    var s := Run(j, s0, acts);
    hide UniqueNames, Apply, Applies, Achieved, Run;
    AppliesExactly(s.repos, j[k].change, a.rpcOk);
  }

  /** With its action at `i`, the run handles event `k` and achieves what it should. */
  predicate Achieves(j: seq<Event>, s0: State, acts: seq<Action>, i: nat, k: nat)
    requires i < |acts| && k < |j|
  {
    && Handles(Run(j, s0, acts[..i]), acts[i], k)
    && Achieved(j[k].change, acts[i].rpcOk, Step(j, Run(j, s0, acts[..i]), acts[i]).repos)
  }

  ghost predicate HasAchieved(j: seq<Event>, s0: State, acts: seq<Action>, k: nat)
    requires k < |j|
  {
    exists i :: 0 <= i < |acts| && Achieves(j, s0, acts, i, k)
  }

  lemma AchievedOneMore(j: seq<Event>, s0: State, acts: seq<Action>, k: nat)
    requires k < |j| && acts != []
    ensures var n := |acts| - 1;
            HasAchieved(j, s0, acts[..n], k) || Achieves(j, s0, acts, n, k) ==> HasAchieved(j, s0, acts, k)
  {
    var n := |acts| - 1;
    hide Step, Run, Achieved, Handles;
    if HasAchieved(j, s0, acts[..n], k) {
      var i :| 0 <= i < n && Achieves(j, s0, acts[..n], i, k);
      assert acts[..n][..i] == acts[..i];
      assert Achieves(j, s0, acts, i, k);
    }
  }

  lemma {:induction false} RecordedIsAchieved(j: seq<Event>, s0: State, acts: seq<Action>, k: nat)
    requires Unique(j) && Init(s0) && k in Run(j, s0, acts).applied
    ensures k < |j| && HasAchieved(j, s0, acts, k)
  {
    var n := |acts| - 1;
    var s, a := Run(j, s0, acts[..n]), acts[n];
    if k in s.applied {
      RecordedIsAchieved(j, s0, acts[..n], k);
    } else {
      hide Apply, Applies, Achieved, Unique;
      assert Handles(s, a, k) && Step(j, s, a).obs[a.o].live;
      HandlingIsExact(j, s0, acts[..n], a, k);
      assert Achieves(j, s0, acts, n, k);
    }
    hide Achieves, Unique, Step;
    AchievedOneMore(j, s0, acts, k);
  }

  /** With any number of observers and crashes, every event up to the stored tail has been
      handled by some step that achieved what the event asks for. */
  lemma TailIsApplied(j: seq<Event>, s0: State, acts: seq<Action>)
    requires Unique(j) && Init(s0)
    ensures forall k :: 0 <= k < Pos(j, Run(j, s0, acts).stored) ==> HasAchieved(j, s0, acts, k)
  {
    RunKeepsInv(j, s0, acts);
    hide Achieves, Unique, HasAchieved;
    forall k | 0 <= k < Pos(j, Run(j, s0, acts).stored) ensures HasAchieved(j, s0, acts, k) {
      RecordedIsAchieved(j, s0, acts, k);
    }
  }

  /** If every step that handles event `k` meets a failing remote call, which the event
      needs, the stored tail does not pass the event, whatever the observers do. */
  lemma FailedEventBlocksTail(j: seq<Event>, s0: State, acts: seq<Action>, k: nat)
    requires Unique(j) && Init(s0) && k < |j| && !j[k].change.RepoMoved?
    requires forall i | 0 <= i < |acts| && Handles(Run(j, s0, acts[..i]), acts[i], k) :: !acts[i].rpcOk
    ensures Pos(j, Run(j, s0, acts).stored) <= k
  {
    hide Run, Step, Unique;
    TailIsApplied(j, s0, acts);
    assert !HasAchieved(j, s0, acts, k);
  }

  lemma {:induction false} DeadUntilConnect(j: seq<Event>, s: State, acts: seq<Action>, o: nat)
    requires o in s.obs && !s.obs[o].live && Connect(o) !in acts
    ensures o in Run(j, s, acts).obs && !Run(j, s, acts).obs[o].live
  {
    if acts != [] {
      assert acts[|acts| - 1] in acts;
      DeadUntilConnect(j, s, acts[..|acts| - 1], o);
      hide Apply, Applies;
    }
  }

  /** The observer that meets the failing call stays cancelled until it connects again, and
      then it begins at the stored tail. */
  lemma FailedObserverReconnects(j: seq<Event>, s0: State, acts: seq<Action>, a: Action, k: nat, more: seq<Action>)
    requires Init(s0) && k < |j| && !j[k].change.RepoMoved?
    requires Handles(Run(j, s0, acts), a, k) && !a.rpcOk && Connect(a.o) !in more
    ensures var s := Run(j, Step(j, Run(j, s0, acts), a), more);
            && a.o in s.obs && !s.obs[a.o].live
            && Step(j, s, Connect(a.o)).obs[a.o] == Observer(true, s.stored, Pos(j, s.stored), false)
  {
    hide Run, Pos;
    HandlingIsExact(j, s0, acts, a, k);
    DeadUntilConnect(j, Step(j, Run(j, s0, acts), a), more, a.o);
  }

  /** In every reachable state, a step leaves the stored tail or moves it to the next
      event of the journal. */
  lemma TailMovesToNextEvent(j: seq<Event>, s0: State, acts: seq<Action>, a: Action)
    requires Unique(j) && Init(s0)
    ensures var s := Run(j, s0, acts);
            var s' := Step(j, s, a);
            s'.stored == s.stored ||
            (Pos(j, s.stored) < |j| && s'.stored == Some(j[Pos(j, s.stored)].vid) &&
             Pos(j, s'.stored) == Pos(j, s.stored) + 1)
  {
    RunKeepsInv(j, s0, acts);
    StepKeepsInv(j, Run(j, s0, acts), a);
  }

  // One observer.

  lemma {:induction false} PrefixWellFormed(j: seq<Event>, k: nat)
    requires WellFormed(j) && k <= |j|
    ensures WellFormed(j[..k])
  {
    if k == |j| {
      assert j[..k] == j;
    } else {
      PrefixWellFormed(j[..|j| - 1], k);
      assert j[..|j| - 1][..k] == j[..k];
    }
  }

  /** Applying the next event advances the fold, and applying it again changes nothing. */
  lemma ApplyAdvancesFold(j: seq<Event>, k: nat)
    requires WellFormed(j) && k < |j|
    ensures Apply(FoldAt(j, k), j[k].change) == FoldAt(j, k + 1)
    ensures Apply(FoldAt(j, k + 1), j[k].change) == FoldAt(j, k + 1)
  {
    PrefixWellFormed(j, k + 1);
    assert j[..k + 1][..k] == j[..k];
  }

  /** The collection is the fold of the journal up to the tail or one event beyond. */
  predicate FollowsJournal(j: seq<Event>, s: State) {
    var k := Pos(j, s.stored);
    s.repos == FoldAt(j, k) || (k < |j| && s.repos == FoldAt(j, k + 1))
  }

  predicate SoloInv(j: seq<Event>, s: State, o: nat) {
    && s.obs.Keys == {o} && Inv(j, s) && FollowsJournal(j, s)
    && (s.obs[o].live ==> s.obs[o].tail == s.stored)
    && (s.obs[o].live && s.obs[o].pending ==>
          s.obs[o].next < |j| && s.repos == FoldAt(j, s.obs[o].next + 1))
  }

  lemma SoloStepKeepsInv(j: seq<Event>, s: State, o: nat, a: Action)
    requires Unique(j) && WellFormed(j) && SoloInv(j, s, o)
    ensures SoloInv(j, Step(j, s, a), o)
  {
    StepKeepsInv(j, s, a);
    hide Fold, FoldAt, WellFormed, Pos, Unique, Apply, Applies;
    if a.o == o {
      var ob, k := s.obs[o], Pos(j, s.stored);
      if ob.live && ob.next < |j| {
        assert ob.next == k;
        hide Inv;
        PosOfEvent(j, k);
        ApplyAdvancesFold(j, k);
      }
    }
  }

  /** With one observer, after any crashes and reconnects, the map from ids to names is
      the fold of the journal up to the tail or one event beyond it. */
  lemma {:induction false} SoloObserverFollowsJournal(j: seq<Event>, s0: State, o: nat, acts: seq<Action>)
    requires Unique(j) && WellFormed(j) && Init(s0) && s0.obs.Keys == {o}
    ensures FollowsJournal(j, Run(j, s0, acts))
    ensures SoloInv(j, Run(j, s0, acts), o)
  {
    if acts == [] {
      assert j[..0] == [];
    } else {
      SoloObserverFollowsJournal(j, s0, o, acts[..|acts| - 1]);
      SoloStepKeepsInv(j, Run(j, s0, acts[..|acts| - 1]), o, acts[|acts| - 1]);
    }
  }

  // Several observers.

  /** No repo is moved to two different names. */
  predicate MovesOnce(j: seq<Event>) {
    forall a, b | 0 <= a < b < |j| && j[a].change.RepoMoved? && j[b].change.RepoMoved? ::
      j[a].change.id == j[b].change.id ==> j[a].change.name == j[b].change.name
  }

  /** A repo stays in the fold, and a repo that is moved once keeps its name. */
  lemma {:induction false} RepoStays(j: seq<Event>, k: nat, m: nat)
    requires WellFormed(j) && k < m <= |j| && !j[k].change.OtherChange?
    ensures j[k].change.id in FoldAt(j, m)
    ensures MovesOnce(j) && j[k].change.RepoMoved? ==> FoldAt(j, m)[j[k].change.id] == j[k].change.name
  {
    PrefixWellFormed(j, m);
    assert j[..m][..m - 1] == j[..m - 1];
    if m > k + 1 {
      RepoStays(j, k, m - 1);
    }
  }

  /** If repos are moved once, applying an old event again changes nothing. */
  lemma OldEventIsHarmless(j: seq<Event>, k: nat, m: nat)
    requires WellFormed(j) && MovesOnce(j) && k < m <= |j|
    ensures Apply(FoldAt(j, m), j[k].change) == FoldAt(j, m)
  {
    hide Fold, FoldAt, WellFormed, MovesOnce;
    if !j[k].change.OtherChange? {
      RepoStays(j, k, m);
    }
  }

  predicate ManyInv(j: seq<Event>, s: State) {
    && Inv(j, s) && FollowsJournal(j, s)
    && forall o | o in s.obs && s.obs[o].live :: LagOk(j, Pos(j, s.stored), s.repos, s.obs[o])
  }

  /** An observer is not ahead of the tail `k`, and the collection has what it has applied. */
  predicate LagOk(j: seq<Event>, k: nat, repos: Repos, ob: Observer) {
    && ob.next <= k
    && (ob.pending && k == ob.next < |j| ==> repos == FoldAt(j, k + 1))
  }

  /** What applying the event at `k` does to a collection that follows the journal. */
  lemma ApplyKeepsFollowing(j: seq<Event>, s: State, k: nat)
    requires WellFormed(j) && MovesOnce(j) && FollowsJournal(j, s) && k <= Pos(j, s.stored) && k < |j|
    ensures var repos := Apply(s.repos, j[k].change);
            if k == Pos(j, s.stored) then repos == FoldAt(j, k + 1) else repos == s.repos
  {
    hide Fold, FoldAt, WellFormed, MovesOnce, Apply;
    var m := Pos(j, s.stored);
    if k == m {
      ApplyAdvancesFold(j, k);
    } else {
      OldEventIsHarmless(j, k, m);
      if m < |j| {
        OldEventIsHarmless(j, k, m + 1);
      }
    }
  }

  lemma ManyApplyKeepsInv(j: seq<Event>, s: State, o: nat, rpcOk: bool)
    requires Unique(j) && WellFormed(j) && MovesOnce(j) && ManyInv(j, s)
    ensures ManyInv(j, Step(j, s, ApplyNext(o, rpcOk)))
  {
    StepKeepsInv(j, s, ApplyNext(o, rpcOk));
    hide Fold, FoldAt, WellFormed, MovesOnce, Apply, Applies, Pos, Unique, Inv;
    if o in s.obs && s.obs[o].live && !s.obs[o].pending && s.obs[o].next < |j| {
      assert LagOk(j, Pos(j, s.stored), s.repos, s.obs[o]);
      ApplyKeepsFollowing(j, s, s.obs[o].next);
      var s' := Step(j, s, ApplyNext(o, rpcOk));
      forall p | p in s'.obs && s'.obs[p].live ensures LagOk(j, Pos(j, s'.stored), s'.repos, s'.obs[p]) {
        assert LagOk(j, Pos(j, s.stored), s.repos, s.obs[p]);
      }
    }
  }

  lemma ManyUpdateKeepsInv(j: seq<Event>, s: State, o: nat)
    requires Unique(j) && WellFormed(j) && ManyInv(j, s)
    ensures ManyInv(j, Step(j, s, UpdateTail(o)))
  {
    StepKeepsInv(j, s, UpdateTail(o));
    hide Fold, FoldAt, WellFormed, Pos, Unique;
    if o in s.obs && s.obs[o].live && s.obs[o].next < |j| {
      PosOfEvent(j, s.obs[o].next);
      assert s.obs[o].next == Pos(j, s.obs[o].tail);
      hide Inv;
      assert LagOk(j, Pos(j, s.stored), s.repos, s.obs[o]);
    }
  }

  lemma ManyStepKeepsInv(j: seq<Event>, s: State, a: Action)
    requires Unique(j) && WellFormed(j) && MovesOnce(j) && ManyInv(j, s)
    ensures ManyInv(j, Step(j, s, a))
  {
    hide Fold, FoldAt, WellFormed, Pos, Unique, MovesOnce, Apply, Applies;
    match a
    case ApplyNext(o, rpcOk) => ManyApplyKeepsInv(j, s, o, rpcOk);
    case UpdateTail(o) => ManyUpdateKeepsInv(j, s, o);
    case _ => StepKeepsInv(j, s, a);
  }

  lemma {:induction false} ManyObserversFollow(j: seq<Event>, s0: State, acts: seq<Action>)
    requires Unique(j) && WellFormed(j) && MovesOnce(j) && Init(s0)
    ensures ManyInv(j, Run(j, s0, acts))
  {
    if acts == [] {
      assert j[..0] == [];
      PosOfNothing(j);
    } else {
      ManyObserversFollow(j, s0, acts[..|acts| - 1]);
      ManyStepKeepsInv(j, Run(j, s0, acts[..|acts| - 1]), acts[|acts| - 1]);
    }
  }

  lemma PosOfNothing(j: seq<Event>)
    ensures Pos(j, None) == 0
  {
  }

  // If a repo is moved twice, an observer that lags behind can undo the second move.

  ghost predicate Reachable(j: seq<Event>, s0: State, s: State) {
    exists acts :: Run(j, s0, acts) == s
  }

  lemma Extend(j: seq<Event>, s0: State, s: State, a: Action)
    requires Reachable(j, s0, s)
    ensures Reachable(j, s0, Step(j, s, a))
  {
    var acts :| Run(j, s0, acts) == s;
    var more := acts + [a];
    assert more[..|more| - 1] == acts;
    assert Run(j, s0, more) == Step(j, s, a);
  }

  /** An observer at the stored tail applies one event and advances the tail. */
  lemma Advance(j: seq<Event>, s0: State, s: State, o: nat) returns (s': State)
    requires Reachable(j, s0, s)
    requires o in s.obs && s.obs[o].live && !s.obs[o].pending && s.obs[o].tail == s.stored
    requires s.obs[o].next < |j| && Applies(s.repos, j[s.obs[o].next].change, true)
    ensures Reachable(j, s0, s')
    ensures var k := s.obs[o].next;
            s' == State(Some(j[k].vid), Apply(s.repos, j[k].change),
                        s.obs[o := Observer(true, Some(j[k].vid), k + 1, false)], s.applied + {k})
  {
    Extend(j, s0, s, ApplyNext(o, true));
    s' := Step(j, s, ApplyNext(o, true));
    Extend(j, s0, s', UpdateTail(o));
    s' := Step(j, s', UpdateTail(o));
  }

  /** Observer `o` is at the stored tail after `k` events, and so is the collection. */
  predicate At(j: seq<Event>, s: State, o: nat, k: nat) {
    && o in s.obs && s.obs[o].live && !s.obs[o].pending && s.obs[o].tail == s.stored
    && s.obs[o].next == Pos(j, s.stored) == k && s.repos == FoldAt(j, k)
  }

  lemma NextApplies(j: seq<Event>, k: nat)
    requires WellFormed(j) && k < |j|
    ensures Applies(FoldAt(j, k), j[k].change, true)
  {
    PrefixWellFormed(j, k + 1);
    assert j[..k + 1][..k] == j[..k];
  }

  lemma {:induction false} AdvanceTo(j: seq<Event>, s0: State, s: State, o: nat, k: nat, m: nat) returns (s': State)
    requires Unique(j) && WellFormed(j) && Reachable(j, s0, s) && At(j, s, o, k) && k <= m <= |j|
    ensures Reachable(j, s0, s') && At(j, s', o, m) && s'.obs.Keys == s.obs.Keys
    ensures forall p | p in s.obs && p != o :: s'.obs[p] == s.obs[p]
    decreases m - k
  {
    if k == m {
      s' := s;
    } else {
      hide Fold, FoldAt, WellFormed, Apply, Applies, Reachable;
      NextApplies(j, k);
      ApplyAdvancesFold(j, k);
      PosOfEvent(j, k);
      s' := Advance(j, s0, s, o);
      s' := AdvanceTo(j, s0, s', o, k + 1, m);
    }
  }

  /** Observer `p` lags behind observer `o`: it is about to apply event `a` when the tail is
      already at `m`. */
  lemma LagBehind(j: seq<Event>, s0: State, o: nat, p: nat, a: nat, m: nat) returns (s: State)
    requires Unique(j) && WellFormed(j) && Init(s0) && o in s0.obs && p in s0.obs && o != p && a < m <= |j|
    ensures Reachable(j, s0, s) && Pos(j, s.stored) == m && s.repos == Apply(FoldAt(j, m), j[a].change)
  {
    s := s0;
    assert Run(j, s0, []) == s0;
    PosOfNothing(j);
    Extend(j, s0, s, Connect(o));
    s := Step(j, s, Connect(o));
    assert j[..0] == [];
    assert At(j, s, o, 0);
    hide Fold, FoldAt, WellFormed, Apply, Applies, Reachable, Pos, Unique;
    s := AdvanceTo(j, s0, s, o, 0, a);
    Extend(j, s0, s, Connect(p));
    s := Step(j, s, Connect(p));
    s := AdvanceTo(j, s0, s, o, a, m);
    Extend(j, s0, s, ApplyNext(p, true));
    s := Step(j, s, ApplyNext(p, true));
  }

  predicate IsMove(j: seq<Event>, i: int, r: RepoId) {
    0 <= i < |j| && j[i].change.RepoMoved? && j[i].change.id == r
  }

  /** Two moves of `r` to different names with no move of `r` between them. */
  predicate ConsecutiveMoves(j: seq<Event>, r: RepoId, a: nat, b: nat) {
    && a < b && IsMove(j, a, r) && IsMove(j, b, r) && j[a].change.name != j[b].change.name
    && forall c :: a < c < b ==> !IsMove(j, c, r)
  }

  /** The last of them are not followed at once by a move back to the first name. */
  lemma {:induction false} LastConsecutiveMoves(j: seq<Event>, r: RepoId, a: nat, b: nat) returns (a': nat, b': nat)
    requires a < b && IsMove(j, a, r) && IsMove(j, b, r) && j[a].change.name != j[b].change.name
    ensures ConsecutiveMoves(j, r, a', b')
    ensures !(IsMove(j, b' + 1, r) && j[b' + 1].change.name == j[a'].change.name)
    decreases |j| - a, b - a
  {
    if c: int :| a < c < b && IsMove(j, c, r) {
      if j[c].change.name != j[b].change.name {
        a', b' := LastConsecutiveMoves(j, r, c, b);
      } else {
        a', b' := LastConsecutiveMoves(j, r, a, c);
      }
    } else if IsMove(j, b + 1, r) && j[b + 1].change.name == j[a].change.name {
      a', b' := LastConsecutiveMoves(j, r, b, b + 1);
    } else {
      a', b' := a, b;
    }
  }

  lemma {:induction false} NameUntilNextMove(j: seq<Event>, r: RepoId, a: nat, m: nat)
    requires WellFormed(j) && IsMove(j, a, r) && a < m <= |j| && forall c :: a < c < m ==> !IsMove(j, c, r)
    ensures r in FoldAt(j, m) && FoldAt(j, m)[r] == j[a].change.name
  {
    PrefixWellFormed(j, m);
    assert j[..m][..m - 1] == j[..m - 1];
    if m > a + 1 {
      NameUntilNextMove(j, r, a, m - 1);
      assert !IsMove(j, m - 1, r);
    }
  }

  lemma {:induction false} NamesAreUnique(j: seq<Event>, p: RepoId, q: RepoId)
    requires WellFormed(j) && p in Fold(j) && q in Fold(j) && p != q
    ensures Fold(j)[p] != Fold(j)[q]
  {
    var rest := j[..|j| - 1];
    if p in Fold(rest) && q in Fold(rest) {
      NamesAreUnique(rest, p, q);
    }
  }

  /** After a move of `r`, nobody has its former name. */
  lemma FormerNameIsFree(j: seq<Event>, r: RepoId, a: nat, b: nat)
    requires WellFormed(j) && ConsecutiveMoves(j, r, a, b)
    ensures r in FoldAt(j, b + 1) && FoldAt(j, b + 1)[r] == j[b].change.name
    ensures NameFree(FoldAt(j, b + 1), r, j[a].change.name)
  {
    var before, after := FoldAt(j, b), FoldAt(j, b + 1);
    NameUntilNextMove(j, r, a, b);
    assert j[..b + 1][..b] == j[..b];
    assert after == before[r := j[b].change.name];
    PrefixWellFormed(j, b);
    hide Fold, WellFormed, ConsecutiveMoves;
    forall q | q in after && q != r ensures after[q] != j[a].change.name {
      NamesAreUnique(j[..b], q, r);
    }
  }

  /** The next event does not give `r` the name `x`. */
  lemma NextKeepsOffName(j: seq<Event>, r: RepoId, m: nat, x: Name)
    requires WellFormed(j) && m < |j| && r in FoldAt(j, m) && FoldAt(j, m)[r] != x
    requires !(IsMove(j, m, r) && j[m].change.name == x)
    ensures r in FoldAt(j, m + 1) && FoldAt(j, m + 1)[r] != x
  {
    PrefixWellFormed(j, m + 1);
    assert j[..m + 1][..m] == j[..m];
  }

  /** The old move does take effect, and the result is no state of the journal. */
  lemma OldMoveTakesEffect(j: seq<Event>, r: RepoId, a: nat, b: nat)
    requires WellFormed(j) && ConsecutiveMoves(j, r, a, b)
    requires !(IsMove(j, b + 1, r) && j[b + 1].change.name == j[a].change.name)
    ensures var repos := Apply(FoldAt(j, b + 1), j[a].change);
            repos != FoldAt(j, b + 1) && (b + 1 < |j| ==> repos != FoldAt(j, b + 2))
  {
    FormerNameIsFree(j, r, a, b);
    hide FoldAt, WellFormed, NameFree;
    if b + 1 < |j| {
      NextKeepsOffName(j, r, b + 1, j[a].change.name);
    }
  }

  /** An observer that lags behind applies an old move after a newer one.  Its
      compare-and-set then fails, but the repo keeps the old name. */
  lemma LaggingObserverRevertsMove(j: seq<Event>, s0: State, o: nat, p: nat) returns (s: State)
    requires Unique(j) && WellFormed(j) && Init(s0) && o in s0.obs && p in s0.obs && o != p && !MovesOnce(j)
    ensures Reachable(j, s0, s) && !FollowsJournal(j, s)
  {
    var a, b :| 0 <= a < b < |j| && j[a].change.RepoMoved? && j[b].change.RepoMoved? &&
      j[a].change.id == j[b].change.id && j[a].change.name != j[b].change.name;
    var r := j[a].change.id;
    hide MovesOnce, Fold, WellFormed, Apply, Reachable, Pos, Unique, Init;
    var a', b' := LastConsecutiveMoves(j, r, a, b);
    OldMoveTakesEffect(j, r, a', b');
    s := LagBehind(j, s0, o, p, a', b' + 1);
  }

  /** The collection follows the journal in every run, whatever crashes, if and only if
      there is at most one observer or no repo is moved to two different names. */
  lemma FollowsJournalExactly(j: seq<Event>, s0: State)
    requires Unique(j) && WellFormed(j) && Init(s0)
    ensures (forall s | Reachable(j, s0, s) :: FollowsJournal(j, s)) <==>
            (forall o, p | o in s0.obs && p in s0.obs :: o == p) || MovesOnce(j)
  {
    hide MovesOnce, WellFormed, FollowsJournal, Run, Unique;
    if o, p :| o in s0.obs && p in s0.obs && o != p {
      if MovesOnce(j) {
        forall s | Reachable(j, s0, s) ensures FollowsJournal(j, s) {
          var acts :| Run(j, s0, acts) == s;
          ManyObserversFollow(j, s0, acts);
        }
      } else {
        var s := LaggingObserverRevertsMove(j, s0, o, p);
      }
    } else {
      forall s | Reachable(j, s0, s) ensures FollowsJournal(j, s) {
        var acts :| Run(j, s0, acts) == s;
        FewObserversFollow(j, s0, acts);
      }
    }
  }

  lemma FewObserversFollow(j: seq<Event>, s0: State, acts: seq<Action>)
    requires Unique(j) && WellFormed(j) && Init(s0) && forall o, p | o in s0.obs && p in s0.obs :: o == p
    ensures FollowsJournal(j, Run(j, s0, acts))
  {
    hide WellFormed, FollowsJournal, Run, Unique;
    if o :| o in s0.obs {
      assert s0.obs.Keys == {o};
      SoloObserverFollowsJournal(j, s0, o, acts);
    } else {
      NobodyDoesAnything(j, s0, acts);
    }
  }

  lemma {:induction false} NobodyDoesAnything(j: seq<Event>, s0: State, acts: seq<Action>)
    requires Init(s0) && forall o :: o !in s0.obs
    ensures Run(j, s0, acts) == s0 && FollowsJournal(j, s0)
  {
    PosOfNothing(j);
    assert j[..0] == [];
    if acts != [] {
      NobodyDoesAnything(j, s0, acts[..|acts| - 1]);
    }
  }

  // The observer object.

  class Registry {
    var vid: Option<Vid>

    constructor ()
      ensures vid == None
    {
      vid := None;
    }
  }

  class ReposCollection {
    var names: Repos

    constructor ()
      ensures names == map[]
    {
      names := map[];
    }
  }

  /** What one observer sees of the world. */
  datatype View = View(stored: Option<Vid>, tail: Option<Vid>, repos: Repos, live: bool)

  /** Apply an event, then advance the tail; any failure cancels the stream. */
  function Follow(v: View, ev: Event, rpcOk: bool): View {
    var v1 := v.(repos := Apply(v.repos, ev.change));
    if !v.live then v
    else if !Applies(v.repos, ev.change, rpcOk) || v.stored != v.tail then v1.(live := false)
    else v1.(stored := Some(ev.vid), tail := Some(ev.vid))
  }

  function FollowAll(v: View, evs: seq<Event>, rpcOk: seq<bool>): View
    requires |rpcOk| == |evs|
  {
    if evs == [] then v
    else Follow(FollowAll(v, evs[..|evs| - 1], rpcOk[..|evs| - 1]), evs[|evs| - 1], rpcOk[|evs| - 1])
  }

  lemma {:induction false} DeadStreamIgnoresEvents(v: View, evs: seq<Event>, rpcOk: seq<bool>, k: nat)
    requires |rpcOk| == |evs| && k <= |evs| && !FollowAll(v, evs[..k], rpcOk[..k]).live
    ensures FollowAll(v, evs, rpcOk) == FollowAll(v, evs[..k], rpcOk[..k])
  {
    if k == |evs| {
      assert evs[..k] == evs && rpcOk[..k] == rpcOk;
    } else {
      var n := |evs| - 1;
      assert evs[..n][..k] == evs[..k] && rpcOk[..n][..k] == rpcOk[..k];
      DeadStreamIgnoresEvents(v, evs[..n], rpcOk[..n], k);
    }
  }

  /** An uninterrupted event of the object is an apply step and a tail step of the
      protocol. */
  lemma FollowIsTwoSteps(j: seq<Event>, s: State, o: nat, rpcOk: bool)
    requires o in s.obs
    requires var ob := s.obs[o]; ob.live && !ob.pending && ob.next < |j|
    ensures var ob := s.obs[o];
            var v := Follow(View(s.stored, ob.tail, s.repos, true), j[ob.next], rpcOk);
            var s2 := Step(j, Step(j, s, ApplyNext(o, rpcOk)), UpdateTail(o));
            s2.stored == v.stored && s2.repos == v.repos && s2.obs[o].live == v.live && s2.obs[o].tail == v.tail
  {
  }

  class RegistryObserver {
    const registry: Registry
    const repos: ReposCollection
    var tail: Option<Vid>
    var live: bool

    constructor (registry: Registry, repos: ReposCollection)
      ensures this.registry == registry && this.repos == repos && !live && tail == None
    {
      this.registry, this.repos, tail, live := registry, repos, None, false;
    }

    ghost function Sees(): View
      reads this, registry, repos
    {
      View(registry.vid, tail, repos.names, live)
    }

    method Connect()
      modifies this
      ensures tail == registry.vid && live
    {
      tail, live := registry.vid, true;
    }

    method UpdateTail(vid: Vid) returns (ok: bool)
      modifies this`tail, registry
      ensures ok <==> old(registry.vid) == old(tail)
      ensures ok ==> registry.vid == tail == Some(vid)
      ensures !ok ==> registry.vid == old(registry.vid) && tail == old(tail)
    {
      ok := registry.vid == tail;
      if ok {
        registry.vid := Some(vid);
        tail := Some(vid);
      }
    }

    method ApplyEvent(c: Change, rpcOk: bool) returns (ok: bool)
      modifies repos
      ensures repos.names == Apply(old(repos.names), c) && ok == Applies(old(repos.names), c, rpcOk)
    {
      match c
      case RepoAdded(id, name) =>
        if id !in repos.names && NameFree(repos.names, id, name) {
          repos.names := repos.names[id := name];
        }
        ok := rpcOk && id in repos.names;
      case RepoMoved(id, name) =>
        if id !in repos.names || !NameFree(repos.names, id, name) {
          return false;
        }
        repos.names := repos.names[id := name];
        ok := true;
      case OtherChange =>
        ok := rpcOk;
    }

    /** One response of the event stream. */
    method Write(evs: seq<Event>, rpcOk: seq<bool>)
      requires |rpcOk| == |evs| && live
      modifies this`tail, this`live, registry, repos
      ensures Sees() == FollowAll(old(Sees()), evs, rpcOk)
    {
      for i := 0 to |evs|
        invariant live && Sees() == FollowAll(old(Sees()), evs[..i], rpcOk[..i])
      {
        assert evs[..i + 1][..i] == evs[..i] && rpcOk[..i + 1][..i] == rpcOk[..i];
        var ok := ApplyEvent(evs[i].change, rpcOk[i]);
        if ok {
          ok := UpdateTail(evs[i].vid);
        }
        if !ok {
          live := false;
          DeadStreamIgnoresEvents(old(Sees()), evs, rpcOk, i + 1);
          return;
        }
      }
      assert evs[..|evs|] == evs && rpcOk[..|evs|] == rpcOk;
    }
  }
}
