/** Whole updates of a catalog: the stages and the index of the volume that an update fills. */
module CatalogUpdate {
  import opened Wrappers
  import S = CatalogStages
  import X = CatalogIndex

  /** The scans of an update, in order, and how far it gets. */
  datatype Update = Update(cfg: S.Hash, scans: seq<X.Event>, stop: S.Stop)

  /** For each volume, what has been scanned into it, and the config of these scans. */
  datatype World = World(c: S.Catalog, history: map<nat, seq<X.Event>>, configs: map<nat, S.Hash>)

  /** The pipelines of each config. */
  type Pipes = S.Hash -> X.RepoId -> seq<X.Fn>

  const START := World(S.EMPTY, map[], map[])

  /** The volume that an update with the config fills, after it has begun. */
  function Target(c: S.Catalog, cfg: S.Hash): nat {
    if S.HasConfig(c.active, cfg) then c.active.value.serial
    else if c.building.Some? then c.building.value.serial
    else 0
  }

  function HistoryOf(w: World, v: nat): seq<X.Event> {
    if v in w.history then w.history[v] else []
  }

  function Step(w: World, u: Update): World {
    var v := Target(S.Begin(w.c, u.cfg), u.cfg);
    World(S.Step(w.c, S.Update(u.cfg, u.stop)),
          w.history[v := HistoryOf(w, v) + u.scans],
          w.configs[v := u.cfg])
  }

  function Run(us: seq<Update>): World {
    if us == [] then START else Step(Run(us[..|us| - 1]), us[|us| - 1])
  }

  // What every update keeps.

  predicate StageIsScanned(w: World, stage: Option<S.Stage>) {
    stage.Some? ==>
      stage.value.serial in w.history && stage.value.serial in w.configs &&
      w.configs[stage.value.serial] == stage.value.configHash
  }

  predicate Inv(w: World) {
    && S.Inv(w.c) && w.history.Keys == w.configs.Keys <= S.Serials(w.c.serial)
    && StageIsScanned(w, w.c.active) && StageIsScanned(w, w.c.building)
  }

  /** An update begins on a volume of its config or on a new one. */
  lemma TargetFits(w: World, cfg: S.Hash)
    requires Inv(w)
    ensures var c := S.Begin(w.c, cfg);
            var v := Target(c, cfg);
            && S.Inv(c) && v in S.Serials(c.serial) && w.c.serial <= c.serial
            && (v in w.configs ==> w.configs[v] == cfg)
            && (forall stage | stage == c.active || stage == c.building ::
                  stage.Some? && stage.value.serial != v ==> StageIsScanned(w, stage))
            && (forall stage | stage == c.active || stage == c.building ::
                  stage.Some? && stage.value.serial == v ==> stage.value.configHash == cfg)
  {
    S.BeginKeepsInv(w.c, cfg);
    var c := S.Begin(w.c, cfg);
    if c.serial > w.c.serial {
      assert c.serial !in S.Serials(w.c.serial);
    }
    assert S.Serials(w.c.serial + 1) == S.Serials(w.c.serial) + {w.c.serial + 1};
  }

  lemma StagesAfter(c: S.Catalog, u: Update)
    ensures var c1, c2 := S.Begin(c, u.cfg), S.Step(c, S.Update(u.cfg, u.stop));
            && c2.serial == c1.serial
            && (c2.active == c1.active || c2.active == c1.building)
            && (c2.building == c1.building || c2.building == None)
  {
    hide S.Begin;
  }

  lemma ScannedAfter(w: World, v: nat, cfg: S.Hash, scans: seq<X.Event>, c: S.Catalog, stage: Option<S.Stage>)
    requires stage.Some? && stage.value.serial != v ==> StageIsScanned(w, stage)
    requires stage.Some? && stage.value.serial == v ==> stage.value.configHash == cfg
    ensures StageIsScanned(World(c, w.history[v := HistoryOf(w, v) + scans], w.configs[v := cfg]), stage)
  {
  }

  lemma StepKeepsInv(w: World, u: Update)
    requires Inv(w)
    ensures Inv(Step(w, u))
  {
    TargetFits(w, u.cfg);
    StagesAfter(w.c, u);
    S.StepKeepsInv(w.c, S.Update(u.cfg, u.stop));
    var c, w' := S.Begin(w.c, u.cfg), Step(w, u);
    SerialsGrow(w.c.serial, c.serial);
    ScannedAfter(w, Target(c, u.cfg), u.cfg, u.scans, w'.c, c.active);
    ScannedAfter(w, Target(c, u.cfg), u.cfg, u.scans, w'.c, c.building);
    hide S.Begin, S.Step, S.Inv, S.Serials, Target, StageIsScanned, HistoryOf;
    assert StageIsScanned(w', w'.c.active);
    assert w'.c.building.Some? ==> StageIsScanned(w', w'.c.building);
    NothingIsScanned(w');
  }

  lemma NothingIsScanned(w: World)
    ensures StageIsScanned(w, None)
  {
  }

  lemma {:induction false} SerialsGrow(m: nat, n: nat)
    requires m <= n
    ensures S.Serials(m) <= S.Serials(n)
  {
  }

  lemma {:induction false} RunKeepsInv(us: seq<Update>)
    ensures Inv(Run(us))
  {
    if us == [] {
      assert S.Run([]) == S.EMPTY;
      S.RunKeepsInv([]);
    } else {
      RunKeepsInv(us[..|us| - 1]);
      StepKeepsInv(Run(us[..|us| - 1]), us[|us| - 1]);
    }
  }

  /** All scans into a volume use one config: an update never fills a volume of another. */
  lemma ConfigIsFixed(us: seq<Update>, u: Update, v: nat)
    requires v in Run(us).configs
    ensures v in Step(Run(us), u).configs && Step(Run(us), u).configs[v] == Run(us).configs[v]
  {
    RunKeepsInv(us);
    TargetFits(Run(us), u.cfg);
  }

  // What the active volume lists after a completed update.

  function RepoOf(ev: X.Event): X.RepoId {
    match ev
    case Abort(repo, _) => repo.id
    case Complete(repo) => repo.id
    case Delete(r) => r
  }

  /** A scan that runs to the end, or that is skipped, marks its repo; later events of other
      repos keep the marker. */
  lemma {:induction false} MarkedAfterScan(pipe: X.RepoId -> seq<X.Fn>, evs: seq<X.Event>, i: nat, repo: X.Repo)
    requires i < |evs| && evs[i] == X.Complete(repo)
    requires forall j :: i < j < |evs| ==> RepoOf(evs[j]) != repo.id
    ensures X.UpToDate(X.Run(pipe, evs), repo)
    decreases |evs|
  {
    hide X.CompleteScan, X.ScanTo, X.RemoveEmpty, X.PullRepo;
    var n := |evs| - 1;
    if i < n {
      MarkedAfterScan(pipe, evs[..n], i, repo);
      assert RepoOf(evs[n]) != repo.id;
    }
  }

  lemma ActiveIsTarget(w: World, cfg: S.Hash)
    requires Inv(w)
    ensures var c := S.Step(w.c, S.Update(cfg, S.Never));
            && S.HasConfig(c.active, cfg) && c.active.value.serial == Target(S.Begin(w.c, cfg), cfg)
            && c.existing == {c.active.value.serial}
  {
    S.BeginKeepsInv(w.c, cfg);
    S.StepKeepsInv(w.c, S.Update(cfg, S.Never));
  }

  /** A completed update leaves one volume, which is active with its config and has got its
      scans after those of earlier updates with the same config. */
  lemma CompletedUpdateFillsActive(us: seq<Update>, cfg: S.Hash, scans: seq<X.Event>)
    ensures var w := Step(Run(us), Update(cfg, scans, S.Never));
            && S.HasConfig(w.c.active, cfg)
            && var v := w.c.active.value.serial;
            && w.c.existing == {v} && v in w.history && v in w.configs && w.configs[v] == cfg
            && w.history[v] == HistoryOf(Run(us), v) + scans
  {
    RunKeepsInv(us);
    ActiveIsTarget(Run(us), cfg);
    hide Run, S.Step, S.Begin, Target, Inv;
  }

  /** After its last scan in a history, a repo is listed at its commit exactly, and the volume
      is current for it if and only if no aborted scan left another commit behind. */
  lemma ScannedIsCurrentExactly(pipe: X.RepoId -> seq<X.Fn>, evs: seq<X.Event>, i: nat, repo: X.Repo)
    requires i < |evs| && evs[i] == X.Complete(repo)
    requires forall j :: i < j < |evs| ==> RepoOf(evs[j]) != repo.id
    ensures IsListed(X.Run(pipe, evs), repo, pipe(repo.id))
    ensures X.Current(X.Run(pipe, evs), repo, pipe(repo.id)) <==>
            forall c, id, path :: X.LeftBehind(pipe, evs, repo.id, c, id, path) ==> c == repo.commit
  {
    MarkedAfterScan(pipe, evs, i, repo);
    hide X.Run, X.Lists, X.SelectedPairs, X.UpToDate, X.Current, X.LeftBehind;
    forall id, path
      ensures X.Lists(X.Run(pipe, evs).vol, repo.id, repo.commit, id, path) <==>
              (id, path) in X.SelectedPairs(pipe(repo.id), repo.commit)
    {
      X.MarkedCommitIsExact(pipe, evs, repo, id, path);
    }
    X.SkipIsRightExactlyWithoutStrays(pipe, evs, repo);
  }

  /** The repo is marked and listed at its commit with exactly the selected entries. */
  ghost predicate IsListed(s: X.State, repo: X.Repo, fns: seq<X.Fn>) {
    X.UpToDate(s, repo) &&
    forall id, path ::
      X.Lists(s.vol, repo.id, repo.commit, id, path) <==> (id, path) in X.SelectedPairs(fns, repo.commit)
  }

  /** After any sequence of updates, completed and aborted, with any configs: an update with
      config `cfg` completes that scans `repo` at its commit.  Then the only volume that is
      left is active with that config, lists the repo at its commit exactly, and is current
      for the repo if and only if no aborted scan into this volume left another commit behind. */
  lemma ActiveVolumeIsCurrentExactly(
    pipes: Pipes, us: seq<Update>, cfg: S.Hash, scans: seq<X.Event>, i: nat, repo: X.Repo)
    requires i < |scans| && scans[i] == X.Complete(repo)
    requires forall j :: i < j < |scans| ==> RepoOf(scans[j]) != repo.id
    ensures var w := Step(Run(us), Update(cfg, scans, S.Never));
            && S.HasConfig(w.c.active, cfg)
            && var v := w.c.active.value.serial;
            && w.c.existing == {v} && v in w.history
            && var s := X.Run(pipes(cfg), w.history[v]);
            && IsListed(s, repo, pipes(cfg)(repo.id))
            && (X.Current(s, repo, pipes(cfg)(repo.id)) <==>
                forall c, id, path :: X.LeftBehind(pipes(cfg), w.history[v], repo.id, c, id, path) ==> c == repo.commit)
  {
    hide Run, Step, X.Run, X.Current, X.LeftBehind, IsListed, HistoryOf, RepoOf, S.HasConfig;
    CompletedUpdateFillsActive(us, cfg, scans);
    var w := Step(Run(us), Update(cfg, scans, S.Never));
    assert w.c.active.Some? by { HasConfigIsSome(w.c.active, cfg); }
    var v := w.c.active.value.serial;
    var before, evs := HistoryOf(Run(us), v), w.history[v];
    assert evs[|before| + i] == scans[i];
    forall j | |before| + i < j < |evs| ensures RepoOf(evs[j]) != repo.id {
      assert evs[j] == scans[j - |before|];
    }
    ScannedIsCurrentExactly(pipes(cfg), evs, |before| + i, repo);
  }

  lemma HasConfigIsSome(stage: Option<S.Stage>, cfg: S.Hash)
    requires S.HasConfig(stage, cfg)
    ensures stage.Some?
  {
  }
}
