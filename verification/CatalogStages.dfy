/** The two-stage build of a catalog: the active, the building and the retired volumes.

    A volume is named after its serial, so that serials stand for volumes.  An update may
    abort wherever it renews its lock; there is one updater per catalog. */
module CatalogStages {
  import opened Wrappers

  type Hash = string

  datatype Stage = Stage(configHash: Hash, serial: nat, volumes: set<nat>)

  /** The catalog document, and the volumes that exist and those that were dropped. */
  datatype Catalog = Catalog(
    serial: nat, active: Option<Stage>, building: Option<Stage>, retired: set<nat>,
    existing: set<nat>, dropped: set<nat>)

  const EMPTY := Catalog(0, None, None, {}, {}, {})

  function Volumes(stage: Option<Stage>): set<nat> {
    if stage.Some? then stage.value.volumes else {}
  }

  predicate HasConfig(stage: Option<Stage>, cfg: Hash) {
    stage.Some? && stage.value.configHash == cfg
  }

  /** From reading the document to adding the volume to its stage. */
  function Begin(c: Catalog, cfg: Hash): Catalog {
    if HasConfig(c.active, cfg) then
      var a := c.active.value;
      c.(retired := c.retired + Volumes(c.building), building := None,
         existing := c.existing + {a.serial}, active := Some(a.(volumes := a.volumes + {a.serial})))
    else
      var c1 := if HasConfig(c.building, cfg) then c
                else c.(retired := c.retired + Volumes(c.building), building := Some(Stage(cfg, 0, {})),
                        serial := c.serial + 1);
      var b := c1.building.value;
      c1.(existing := c1.existing + {c1.serial},
          building := Some(Stage(cfg, c1.serial, b.volumes + {c1.serial})))
  }

  /** Retire the active volumes and rename building to active, if building. */
  function Promote(c: Catalog): Catalog {
    if c.building.None? then c
    else c.(retired := c.retired + Volumes(c.active), active := c.building, building := None)
  }

  function DropRetired(c: Catalog): Catalog {
    c.(existing := c.existing - c.retired, dropped := c.dropped + c.retired, retired := {})
  }

  /** How far an update gets before a lock renewal fails. */
  datatype Stop = BeforePromote | BeforeDrop | Never

  datatype Update = Update(cfg: Hash, stop: Stop)

  function Step(c: Catalog, u: Update): Catalog {
    var c1 := Begin(c, u.cfg);
    match u.stop
    case BeforePromote => c1
    case BeforeDrop => Promote(c1)
    case Never => DropRetired(Promote(c1))
  }

  function Run(us: seq<Update>): Catalog {
    if us == [] then EMPTY else Step(Run(us[..|us| - 1]), us[|us| - 1])
  }

  // What every update keeps.

  /** The serials that a catalog has used. */
  function Serials(n: nat): (r: set<nat>)
    ensures forall v :: v in r <==> 1 <= v <= n
  {
    if n == 0 then {} else Serials(n - 1) + {n}
  }

  /** Every volume ever created is in exactly one of four places. */
  predicate Partition(c: Catalog) {
    && Volumes(c.active) !! Volumes(c.building)
    && (Volumes(c.active) + Volumes(c.building)) !! c.retired
    && (Volumes(c.active) + Volumes(c.building) + c.retired) !! c.dropped
    && Volumes(c.active) + Volumes(c.building) + c.retired + c.dropped == Serials(c.serial)
  }

  predicate StageOk(stage: Option<Stage>) {
    stage.Some? ==> stage.value.volumes == {stage.value.serial}
  }

  predicate Inv(c: Catalog) {
    && Partition(c) && StageOk(c.active) && StageOk(c.building)
    && (c.building.Some? ==> c.building.value.serial == c.serial && !HasConfig(c.active, c.building.value.configHash))
    && c.existing == Volumes(c.active) + Volumes(c.building) + c.retired
  }

  lemma BeginKeepsInv(c: Catalog, cfg: Hash)
    requires Inv(c)
    ensures Inv(Begin(c, cfg))
    ensures Begin(c, cfg).dropped == c.dropped && c.serial <= Begin(c, cfg).serial <= c.serial + 1
    ensures Begin(c, cfg).existing - c.existing == if Begin(c, cfg).serial > c.serial then {c.serial + 1} else {}
  {
    assert c.serial + 1 !in Serials(c.serial);
    assert Serials(c.serial + 1) == Serials(c.serial) + {c.serial + 1};
  }

  lemma StepKeepsInv(c: Catalog, u: Update)
    requires Inv(c)
    ensures Inv(Step(c, u))
  {
    BeginKeepsInv(c, u.cfg);
  }

  lemma {:induction false} RunKeepsInv(us: seq<Update>)
    ensures Inv(Run(us))
  {
    if us != [] {
      RunKeepsInv(us[..|us| - 1]);
      StepKeepsInv(Run(us[..|us| - 1]), us[|us| - 1]);
    }
  }

  /** Over any sequence of updates with any config changes and aborts, every created
      volume is active, building, retired or dropped, and in only one of them; the
      active volume exists and was never dropped. */
  lemma VolumesArePartitioned(us: seq<Update>)
    ensures var c := Run(us); Partition(c) && Volumes(c.active) <= c.existing && Volumes(c.active) !! c.dropped
  {
    RunKeepsInv(us);
  }

  /** An update creates at most one volume; its serial is larger than all serials before,
      and it is fresh. */
  lemma NewSerialsIncrease(us: seq<Update>, u: Update)
    ensures var c, c' := Run(us), Step(Run(us), u);
            && c.serial <= c'.serial <= c.serial + 1
            && (c'.serial > c.serial ==>
                  c'.serial !in Volumes(c.active) + Volumes(c.building) + c.retired + c.dropped)
            && forall v | v in c'.existing && v !in c.existing :: v == c'.serial > c.serial
  {
    RunKeepsInv(us);
    BeginKeepsInv(Run(us), u.cfg);
  }

  /** A completed update leaves the config active and exactly one volume in existence,
      whatever was aborted before. */
  lemma CompletedUpdateLeavesOneVolume(us: seq<Update>, cfg: Hash)
    ensures var c := Step(Run(us), Update(cfg, Never));
            && HasConfig(c.active, cfg) && c.building.None? && c.retired == {}
            && c.existing == {c.active.value.serial}
            && c.dropped == Serials(c.serial) - c.existing
  {
    RunKeepsInv(us);
    StepKeepsInv(Run(us), Update(cfg, Never));
  }

  /** What an update does, in terms of the configs and of how far it gets.  It needs a new
      volume exactly if neither stage has its config; otherwise it goes on with the volume of
      that stage.  It replaces the active stage exactly if it reaches the promotion with another
      config, and it drops volumes exactly if it reaches the end. */
  lemma UpdateExactly(us: seq<Update>, u: Update)
    ensures var c, c' := Run(us), Step(Run(us), u);
            var isActive := HasConfig(c.active, u.cfg);
            var stage := Some(Stage(u.cfg, c'.serial, {c'.serial}));
            && c'.serial == c.serial + (if isActive || HasConfig(c.building, u.cfg) then 0 else 1)
            && c'.active == (if isActive || u.stop.BeforePromote? then c.active else stage)
            && c'.building == (if !isActive && u.stop.BeforePromote? then stage else None)
            && (!u.stop.Never? ==> c'.dropped == c.dropped && c'.existing == Serials(c'.serial) - c.dropped)
  {
    RunKeepsInv(us);
    StepKeepsInv(Run(us), u);
    var c := Run(us);
    assert {} + {c.serial + 1} == {c.serial + 1};
    assert {c.serial} + {c.serial} == {c.serial};
    if c.active.Some? {
      assert c.active.value.volumes + {c.active.value.serial} == c.active.value.volumes;
    }
    hide Serials;
  }

  // The catalog object.

  class CatalogDoc {
    var serial: nat
    var active: Option<Stage>
    var building: Option<Stage>
    var retired: set<nat>
    var existing: set<nat>
    var dropped: set<nat>

    ghost function Value(): Catalog
      reads this
    {
      Catalog(serial, active, building, retired, existing, dropped)
    }

    constructor ()
      ensures Value() == EMPTY
    {
      serial, active, building, retired, existing, dropped := 0, None, None, {}, {}, {};
    }

    method BeginUpdate(cfg: Hash) returns (volume: nat)
      requires Inv(Value())
      modifies this
      ensures Value() == Begin(old(Value()), cfg) && Inv(Value())
      ensures volume in existing && (HasConfig(active, cfg) || HasConfig(building, cfg))
      ensures volume in if HasConfig(active, cfg) then Volumes(active) else Volumes(building)
    {
      BeginKeepsInv(Value(), cfg);
      if HasConfig(active, cfg) {
        volume := active.value.serial;
        if building.Some? {
          retired := retired + building.value.volumes;
          building := None;
        }
        existing := existing + {volume};
        active := Some(active.value.(volumes := active.value.volumes + {volume}));
      } else {
        var retire := Volumes(building);
        if !HasConfig(building, cfg) {
          retired := retired + retire;
          building := Some(Stage(cfg, 0, {}));
          serial := serial + 1;
        }
        volume := serial;
        building := Some(building.value.(serial := volume));
        existing := existing + {volume};
        building := Some(building.value.(volumes := building.value.volumes + {volume}));
      }
    }

    method DropRetiredVolumes()
      modifies this`existing, this`dropped, this`retired
      ensures Value() == DropRetired(old(Value()))
    {
      var todo := retired;
      while todo != {}
        invariant todo <= retired == old(retired)
        invariant existing == old(existing) - (retired - todo) && dropped == old(dropped) + (retired - todo)
      {
        var v :| v in todo;
        existing, dropped, todo := existing - {v}, dropped + {v}, todo - {v};
      }
      retired := {};
    }

    method UpdateCatalog(cfg: Hash, stop: Stop)
      requires Inv(Value())
      modifies this
      ensures Value() == Step(old(Value()), Update(cfg, stop)) && Inv(Value())
    {
      StepKeepsInv(Value(), Update(cfg, stop));
      var _ := BeginUpdate(cfg);
      if stop.BeforePromote? {
        return;
      }
      if building.Some? {
        retired := retired + Volumes(active);
        active, building := building, None;
      }
      if stop.BeforeDrop? {
        return;
      }
      DropRetiredVolumes();
    }
  }
}
