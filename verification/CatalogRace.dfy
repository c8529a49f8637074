/** The updaters of two catalogs.  `dropRetiredVolumes()` runs over all catalogs: the foreign
    updater reads the retired volumes of this catalog, drops them, and unsets the field.  The
    steps of the own updater may come between. */
module CatalogRace {
  import opened Wrappers
  import opened CatalogStages

  /** What the foreign updater has read, and whether it has dropped it. */
  datatype Window = Window(names: set<nat>, dropped: bool)

  /** How far the own update has come. */
  datatype Progress = Resting | Begun | Promoted

  /** `listed` says whether the field `retiredVolumes` exists; it may be an empty list. */
  datatype World = World(c: Catalog, listed: bool, own: Progress, window: Option<Window>)

  datatype Action = OwnBegin(cfg: Hash) | OwnPromote | OwnDrop | ForeignRead | ForeignDropNames | ForeignUnset

  const START := World(EMPTY, false, Resting, None)

  /** An own update may abort at any time; then the next one begins. */
  predicate Enabled(w: World, a: Action) {
    match a
    case OwnBegin(_) => true
    case OwnPromote => w.own.Begun?
    case OwnDrop => w.own.Promoted?
    case ForeignRead => w.window.None? && w.listed
    case ForeignDropNames => w.window.Some? && !w.window.value.dropped
    case ForeignUnset => w.window.Some? && w.window.value.dropped
  }

  /** An own step that adds to the field, be it an empty list. */
  predicate Lists(w: World, a: Action) {
    match a
    case OwnBegin(cfg) => if HasConfig(w.c.active, cfg) then w.c.building.Some? else !HasConfig(w.c.building, cfg)
    case OwnPromote => w.c.building.Some? && w.c.active.Some?
    case _ => false
  }

  function Next(w: World, a: Action): World {
    if !Enabled(w, a) then w else
    match a
    case OwnBegin(cfg) => w.(c := Begin(w.c, cfg), listed := w.listed || Lists(w, a), own := Begun)
    case OwnPromote => w.(c := Promote(w.c), listed := w.listed || Lists(w, a), own := Promoted)
    case OwnDrop => w.(c := DropRetired(w.c), listed := false, own := Resting)
    case ForeignRead => w.(window := Some(Window(w.c.retired, false)))
    case ForeignDropNames =>
      var names := w.window.value.names;
      w.(c := w.c.(existing := w.c.existing - names, dropped := w.c.dropped + names), window := Some(Window(names, true)))
    case ForeignUnset => w.(c := w.c.(retired := {}), listed := false, window := None)
  }

  function RunAll(acts: seq<Action>): World {
    if acts == [] then START else Next(RunAll(acts[..|acts| - 1]), acts[|acts| - 1])
  }

  // When a volume gets lost, as the guards of the steps tell.

  /** An own step that retires volumes: it abandons a build or replaces the active stage. */
  predicate Retires(w: World, a: Action) {
    match a
    case OwnBegin(cfg) => w.c.building.Some? && (HasConfig(w.c.active, cfg) || !HasConfig(w.c.building, cfg))
    case OwnPromote => w.own.Begun? && w.c.building.Some? && w.c.active.Some?
    case _ => false
  }

  /** Since the foreign read, an own step has retired volumes that no own drop has removed. */
  predicate Pending(acts: seq<Action>) {
    acts != [] &&
    var before, a := acts[..|acts| - 1], acts[|acts| - 1];
    var w := RunAll(before);
    StillPending(w, Pending(before), a)
  }

  predicate StillPending(w: World, pending: bool, a: Action) {
    match a
    case OwnBegin(_) => pending || (w.window.Some? && Retires(w, a))
    case OwnPromote => pending || (w.window.Some? && Retires(w, a))
    case OwnDrop => pending && !w.own.Promoted?
    case ForeignUnset => pending && !Enabled(w, a)
    case _ => pending
  }

  /** The foreign updater unsets the field while such volumes are in it. */
  predicate Loses(acts: seq<Action>) {
    acts != [] &&
    var before, a := acts[..|acts| - 1], acts[|acts| - 1];
    Loses(before) || (a.ForeignUnset? && Enabled(RunAll(before), a) && Pending(before))
  }

  // The invariant.

  function Stages(c: Catalog): set<nat> {
    Volumes(c.active) + Volumes(c.building)
  }

  /** The volumes that the catalog still knows about. */
  function Known(c: Catalog): set<nat> {
    Stages(c) + c.retired + c.dropped
  }

  predicate StagesInv(c: Catalog) {
    && StageOk(c.active) && StageOk(c.building) && Volumes(c.active) !! Volumes(c.building)
    && (c.building.Some? ==> c.building.value.serial == c.serial && !HasConfig(c.active, c.building.value.configHash))
    && Stages(c) !! c.retired + c.dropped && Known(c) <= Serials(c.serial)
    && c.existing == Serials(c.serial) - c.dropped
  }

  predicate WindowInv(w: World, pending: bool) {
    match w.window
    case None => w.c.retired !! w.c.dropped && !pending
    case Some(win) =>
      && win.names !! Stages(w.c) && win.names <= w.c.retired + w.c.dropped
      && w.c.retired * w.c.dropped <= (if win.dropped then win.names else {})
      && (win.dropped ==> win.names <= w.c.dropped)
      && (pending <==> w.c.retired - win.names - w.c.dropped != {})
  }

  predicate RaceInv(w: World, pending: bool, lost: bool) {
    StagesInv(w.c) && WindowInv(w, pending) && (lost <==> Known(w.c) != Serials(w.c.serial))
  }

  lemma NextSerial(c: Catalog)
    requires StagesInv(c)
    ensures c.serial + 1 !in Known(c) && Serials(c.serial + 1) == Serials(c.serial) + {c.serial + 1}
  {
    assert c.serial + 1 !in Serials(c.serial);
  }

  /** What an own step does to the volumes: it may create one, and what it retires comes from
      the stages, exactly if its guard says so. */
  lemma BeginMoves(c: Catalog, cfg: Hash)
    requires StagesInv(c)
    ensures var c' := Begin(c, cfg);
            && StagesInv(c') && c'.dropped == c.dropped && c.retired <= c'.retired
            && Known(c') == Known(c) + (Serials(c'.serial) - Serials(c.serial))
            && c'.retired - c.retired <= Stages(c) && Stages(c') - Stages(c) <= Serials(c'.serial) - Serials(c.serial)
            && (c'.retired != c.retired <==>
                c.building.Some? && (HasConfig(c.active, cfg) || !HasConfig(c.building, cfg)))
  {
    NextSerial(c);
    hide Serials;
  }

  lemma PromoteMoves(c: Catalog)
    requires StagesInv(c)
    ensures var c' := Promote(c);
            && StagesInv(c') && c'.dropped == c.dropped && c.retired <= c'.retired && c'.serial == c.serial
            && Known(c') == Known(c) && c'.retired - c.retired <= Stages(c) && Stages(c') <= Stages(c)
            && (c'.retired != c.retired <==> c.building.Some? && c.active.Some?)
  {
    hide Serials;
  }

  lemma OwnStepKeepsInv(w: World, pending: bool, lost: bool, a: Action)
    requires RaceInv(w, pending, lost) && (a.OwnBegin? || a.OwnPromote?) && Enabled(w, a)
    ensures RaceInv(Next(w, a), StillPending(w, pending, a), lost)
  {
    if a.OwnBegin? {
      BeginMoves(w.c, a.cfg);
    } else {
      PromoteMoves(w.c);
    }
    hide StagesInv, Begin, Promote, Serials, HasConfig;
    var c, c' := w.c, Next(w, a).c;
    assert c.retired !! Stages(c) && c.dropped !! Stages(c) by { StagesAreApart(c); }
    assert Known(c) <= Serials(c.serial) && Known(c') <= Serials(c'.serial) by { KnownIsCreated(c); KnownIsCreated(c'); }
  }

  lemma StagesAreApart(c: Catalog)
    requires StagesInv(c)
    ensures c.retired !! Stages(c) && c.dropped !! Stages(c)
  {
  }

  lemma KnownIsCreated(c: Catalog)
    requires StagesInv(c)
    ensures Known(c) <= Serials(c.serial)
  {
  }

  lemma StepKeepsRaceInv(w: World, pending: bool, lost: bool, a: Action)
    requires RaceInv(w, pending, lost)
    ensures RaceInv(Next(w, a), StillPending(w, pending, a), lost || (a.ForeignUnset? && Enabled(w, a) && pending))
  {
    if Enabled(w, a) {
      match a
      case OwnBegin(_) => OwnStepKeepsInv(w, pending, lost, a);
      case OwnPromote => OwnStepKeepsInv(w, pending, lost, a);
      case _ =>
        hide Serials, HasConfig;
    }
  }

  lemma {:induction false} RunKeepsRaceInv(acts: seq<Action>)
    ensures RaceInv(RunAll(acts), Pending(acts), Loses(acts))
  {
    if acts != [] {
      hide RaceInv, Next, StillPending;
      var before := acts[..|acts| - 1];
      RunKeepsRaceInv(before);
      StepKeepsRaceInv(RunAll(before), Pending(before), Loses(before), acts[|acts| - 1]);
    }
  }

  /** In every run of the two updaters, every created volume is active, building, retired or
      dropped if and only if the foreign updater never unsets the field while it holds volumes
      that an own step retired after the foreign read.  Outside of a foreign drop, this is the
      partition of the volumes.  The active volume is never dropped in any run. */
  lemma NothingIsLostExactly(acts: seq<Action>)
    ensures Known(RunAll(acts).c) == Serials(RunAll(acts).c.serial) <==> !Loses(acts)
    ensures RunAll(acts).window.None? ==> (Partition(RunAll(acts).c) <==> !Loses(acts))
    ensures Volumes(RunAll(acts).c.active) !! RunAll(acts).c.dropped
  {
    hide RunAll, Pending, Loses, Serials;
    RunKeepsRaceInv(acts);
  }

  /** In every run, retired volumes are in the field, so that the next drop finds them. */
  lemma {:induction false} RetiredIsListed(acts: seq<Action>)
    ensures RunAll(acts).c.retired != {} ==> RunAll(acts).listed
  {
    if acts != [] {
      var before, a := acts[..|acts| - 1], acts[|acts| - 1];
      RetiredIsListed(before);
      RunKeepsRaceInv(before);
      var w := RunAll(before);
      hide RunAll, Pending, Loses;
      if a.OwnBegin? {
        BeginMoves(w.c, a.cfg);
      } else if a.OwnPromote? {
        PromoteMoves(w.c);
      }
      hide RaceInv, Begin, Promote;
    }
  }

  lemma After(acts: seq<Action>, a: Action)
    ensures RunAll(acts + [a]) == Next(RunAll(acts), a)
  {
    assert (acts + [a])[..|acts|] == acts;
  }

  lemma NextBuild(c: Catalog, cfg: Hash)
    requires !HasConfig(c.active, cfg) && !HasConfig(c.building, cfg)
    ensures var n := c.serial + 1;
            Begin(c, cfg) == Catalog(n, c.active, Some(Stage(cfg, n, {n})), c.retired + Volumes(c.building), c.existing + {n}, c.dropped)
  {
    assert {} + {c.serial + 1} == {c.serial + 1};
  }

  /** The state of the own updater, if nobody else works. */
  function Alone(c: Catalog, listed: bool, own: Progress): World {
    World(c, listed, own, None)
  }

  /** A config is active, the build of a second one is abandoned for a third one.  While the
      foreign updater drops the abandoned volume, the third config becomes active: the volume
      of the first one exists forever, but no list has it. */
  lemma ReplacedVolumeIsLost(first: Hash, second: Hash, third: Hash)
    requires first != second && second != third && first != third
    ensures var acts := [OwnBegin(first), OwnPromote, OwnDrop, OwnBegin(second), OwnBegin(third),
                         ForeignRead, OwnPromote, ForeignDropNames, ForeignUnset];
            var c := RunAll(acts).c;
            1 in c.existing && 1 in Serials(c.serial) && 1 !in Known(c) && Loses(acts)
  {
    var a3 := [OwnBegin(first), OwnPromote, OwnDrop];
    var a5 := a3 + [OwnBegin(second)] + [OwnBegin(third)];
    ActiveFirst(first);
    Abandoned(a3, first, second, third);
    hide RunAll;
    LostInWindow(a5, Stage(first, 1, {1}), Stage(third, 3, {3}));
    assert a5 + [ForeignRead, OwnPromote, ForeignDropNames, ForeignUnset] ==
           [OwnBegin(first), OwnPromote, OwnDrop, OwnBegin(second), OwnBegin(third),
            ForeignRead, OwnPromote, ForeignDropNames, ForeignUnset];
  }

  lemma ActiveFirst(first: Hash)
    ensures RunAll([OwnBegin(first), OwnPromote, OwnDrop]) ==
            Alone(Catalog(1, Some(Stage(first, 1, {1})), None, {}, {1}, {}), false, Resting)
  {
    var a1 := [OwnBegin(first)];
    var a2 := a1 + [OwnPromote];
    assert [] + a1 == a1;
    assert RunAll([]) == START;
    After([], OwnBegin(first));
    After(a1, OwnPromote);
    After(a2, OwnDrop);
    hide RunAll;
    NextBuild(EMPTY, first);
    assert {} + {1} == {1};
    assert RunAll(a1).c == Catalog(1, None, Some(Stage(first, 1, {1})), {}, {1}, {});
    assert a2 + [OwnDrop] == [OwnBegin(first), OwnPromote, OwnDrop];
  }

  lemma Abandoned(acts: seq<Action>, first: Hash, second: Hash, third: Hash)
    requires first != second && second != third && first != third
    requires RunAll(acts) == Alone(Catalog(1, Some(Stage(first, 1, {1})), None, {}, {1}, {}), false, Resting)
    ensures RunAll(acts + [OwnBegin(second)] + [OwnBegin(third)]) ==
            Alone(Catalog(3, Some(Stage(first, 1, {1})), Some(Stage(third, 3, {3})), {2}, {1, 2, 3}, {}), true, Begun)
  {
    var a4 := acts + [OwnBegin(second)];
    After(acts, OwnBegin(second));
    After(a4, OwnBegin(third));
    hide RunAll;
    NextBuild(RunAll(acts).c, second);
    NextBuild(RunAll(a4).c, third);
    assert {1} + {2} == {1, 2};
    assert RunAll(a4).c == Catalog(2, Some(Stage(first, 1, {1})), Some(Stage(second, 2, {2})), {}, {1, 2}, {});
    assert {} + {2} == {2} && {1, 2} + {3} == {1, 2, 3};
  }

  lemma LostInWindow(acts: seq<Action>, s1: Stage, s3: Stage)
    requires RunAll(acts) == Alone(Catalog(3, Some(s1), Some(s3), {2}, {1, 2, 3}, {}), true, Begun)
    requires s1.volumes == {1} && s3.volumes == {3}
    ensures var more := acts + [ForeignRead, OwnPromote, ForeignDropNames, ForeignUnset];
            var c := RunAll(more).c;
            1 in c.existing && 1 in Serials(c.serial) && 1 !in Known(c) && Loses(more)
  {
    var a5 := acts + [ForeignRead];
    var a6 := a5 + [OwnPromote];
    var a7 := a6 + [ForeignDropNames];
    var a8 := a7 + [ForeignUnset];
    After(acts, ForeignRead);
    After(a5, OwnPromote);
    After(a6, ForeignDropNames);
    After(a7, ForeignUnset);
    hide RunAll;
    assert a8 == acts + [ForeignRead, OwnPromote, ForeignDropNames, ForeignUnset];
    NothingIsLostExactly(a8);
  }
}
