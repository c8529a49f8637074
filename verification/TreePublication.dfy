/** The publication of the files of a repo.

    A fetch lists the stat tree and, if there is one, the meta tree.  The messages of the
    two streams patch the published documents as they arrive, in any interleaving.
    Documents are keyed by path: the name hash that serves as the document id is
    taken to be injective. */
module TreePublication {
  import opened Wrappers

  type Path = string
  type Info = string
  type Md = string

  datatype Doc = Doc(path: Path, stat: Option<Info>, meta: Option<Md>)

  /** What a client should see after complete listings `stat` and `meta`. */
  function Listing(stat: map<Path, Info>, meta: map<Path, Md>): map<Path, Doc> {
    map p | p in stat.Keys + meta.Keys :: Doc(p, Get(stat, p), Get(meta, p))
  }

  /** The published documents and the bookkeeping of the current fetch.  The fields from
      `statOpen` on record what the streams of the current fetch have done so far. */
  datatype State = State(
    docs: map<Path, Doc>,
    statIds: set<Path>, metaIds: set<Path>,
    unseenStat: set<Path>, unseenMeta: set<Path>,
    nDone: nat, nExpected: nat,
    statOpen: bool, metaOpen: bool, failed: bool,
    gotStat: map<Path, Info>, gotMeta: map<Path, Md>)

  datatype Stream = StatStream | MetaStream

  datatype Event =
    | Begin(hasMeta: bool)
    | StatMsg(p: Path, info: Info)
    | MetaMsg(p: Path, md: Option<Md>)  // `None`: the metadata JSON does not parse.
    | End(stream: Stream)
    | Error(stream: Stream)

  const INIT := State(map[], {}, {}, {}, {}, 0, 0, false, false, false, map[], map[])

  predicate Done(s: State) {
    !s.statOpen && !s.metaOpen
  }

  /** Fetches do not overlap and a stream is silent after it finished. */
  predicate Enabled(s: State, ev: Event) {
    match ev
    case Begin(_) => Done(s)
    case StatMsg(_, _) => s.statOpen
    case MetaMsg(_, _) => s.metaOpen
    case End(stream) => if stream.StatStream? then s.statOpen else s.metaOpen
    case Error(stream) => if stream.StatStream? then s.statOpen else s.metaOpen
  }

  function Changed(docs: map<Path, Doc>, p: Path, f: Doc -> Doc): map<Path, Doc> {
    if p in docs then docs[p := f(docs[p])] else docs
  }

  function OnStat(s: State, p: Path, info: Info): State {
    var isNew := p !in s.statIds && p !in s.metaIds;
    s.(statIds := s.statIds + {p},
       docs := if isNew then s.docs[p := Doc(p, Some(info), None)]
               else Changed(s.docs, p, (d: Doc) => d.(stat := Some(info))),
       unseenStat := if isNew then s.unseenStat else s.unseenStat - {p},
       gotStat := s.gotStat[p := info])
  }

  function OnMeta(s: State, p: Path, md: Md): State {
    var isNew := p !in s.metaIds && p !in s.statIds;
    s.(metaIds := s.metaIds + {p},
       docs := if isNew then s.docs[p := Doc(p, None, Some(md))]
               else Changed(s.docs, p, (d: Doc) => d.(meta := Some(md))),
       unseenMeta := if isNew then s.unseenMeta else s.unseenMeta - {p},
       gotMeta := s.gotMeta[p := md])
  }

  /** The documents that `deleteIds()` tells to remove. */
  function Rm(s: State): set<Path> {
    (set p | p in s.unseenStat && (p in s.unseenMeta || p !in s.metaIds)) +
    (set p | p in s.unseenMeta && (p in s.unseenStat || p !in s.statIds - s.unseenStat))
  }

  function RmStat(s: State): set<Path> {
    set p | p in s.unseenStat && p !in s.unseenMeta && p in s.metaIds
  }

  function RmMeta(s: State): set<Path> {
    set p | p in s.unseenMeta && p !in s.unseenStat && p in s.statIds - s.unseenStat
  }

  function Pruned(s: State): map<Path, Doc> {
    map p | p in s.docs && p !in Rm(s) ::
      Doc(s.docs[p].path,
          if p in RmStat(s) then None else s.docs[p].stat,
          if p in RmMeta(s) then None else s.docs[p].meta)
  }

  function Close(s: State, stream: Stream): State {
    if stream.StatStream? then s.(nDone := s.nDone + 1, statOpen := false)
    else s.(nDone := s.nDone + 1, metaOpen := false)
  }

  function OnEnd(s: State, stream: Stream): State {
    var s1 := Close(s, stream);
    if s1.nDone < s1.nExpected then s1
    else s1.(docs := Pruned(s), statIds := s.statIds - s.unseenStat, metaIds := s.metaIds - s.unseenMeta)
  }

  function Step(s: State, ev: Event): State {
    if !Enabled(s, ev) then s else
    match ev
    case Begin(hasMeta) =>
      s.(unseenStat := s.statIds, unseenMeta := s.metaIds, nDone := 0, nExpected := if hasMeta then 2 else 1,
         statOpen := true, metaOpen := hasMeta, failed := false, gotStat := map[], gotMeta := map[])
    case StatMsg(p, info) => OnStat(s, p, info)
    case MetaMsg(p, md) => if md.Some? then OnMeta(s, p, md.value) else s
    case End(stream) => OnEnd(s, stream)
    case Error(stream) => Close(s, stream).(failed := true)
  }

  function Run(s: State, evs: seq<Event>): State {
    if evs == [] then s else Step(Run(s, evs[..|evs| - 1]), evs[|evs| - 1])
  }

  // The invariant that every event keeps.

  /** The known ids say which documents are published and which fields they have. */
  predicate IdsMatchDocs(s: State) {
    && s.docs.Keys == s.statIds + s.metaIds
    && forall p | p in s.docs :: s.docs[p].path == p &&
         (s.docs[p].stat.Some? <==> p in s.statIds) && (s.docs[p].meta.Some? <==> p in s.metaIds)
  }

  /** During a fetch, the known ids are those that it has listed and those that it has
      not yet seen. */
  predicate FetchOk(s: State) {
    && s.statIds == s.gotStat.Keys + s.unseenStat && s.gotStat.Keys !! s.unseenStat
    && s.metaIds == s.gotMeta.Keys + s.unseenMeta && s.gotMeta.Keys !! s.unseenMeta
    && s.nExpected == s.nDone + (if s.statOpen then 1 else 0) + (if s.metaOpen then 1 else 0)
  }

  predicate ListedOk(s: State) {
    && (forall p | p in s.gotStat :: p in s.docs && s.docs[p].stat == Some(s.gotStat[p]))
    && (forall p | p in s.gotMeta :: p in s.docs && s.docs[p].meta == Some(s.gotMeta[p]))
  }

  predicate Inv(s: State) {
    && IdsMatchDocs(s) && ListedOk(s)
    && if Done(s) then true else FetchOk(s)
  }

  function WithoutStat(docs: map<Path, Doc>, ids: set<Path>): map<Path, Doc> {
    map p | p in docs :: if p in ids then docs[p].(stat := None) else docs[p]
  }

  function WithoutMeta(docs: map<Path, Doc>, ids: set<Path>): map<Path, Doc> {
    map p | p in docs :: if p in ids then docs[p].(meta := None) else docs[p]
  }

  lemma PrunedInSteps(s: State)
    ensures WithoutMeta(WithoutStat(s.docs, RmStat(s)), RmMeta(s)) - Rm(s) == Pruned(s)
  {
    hide Rm, RmStat, RmMeta;
  }

  lemma PrunedArePublished(s: State)
    requires IdsMatchDocs(s) && FetchOk(s)
    ensures Rm(s) <= s.docs.Keys && RmStat(s) <= s.docs.Keys && RmMeta(s) <= s.docs.Keys
  {
  }

  /** Pruning leaves exactly what the fetch has listed. */
  lemma PrunedIsListing(s: State)
    requires IdsMatchDocs(s) && ListedOk(s) && FetchOk(s)
    ensures Pruned(s) == Listing(s.gotStat, s.gotMeta)
  {
    var a, b := Pruned(s), Listing(s.gotStat, s.gotMeta);
    forall p ensures p in a <==> p in b {}
    assert a.Keys == b.Keys;
    forall p | p in a ensures a[p] == b[p] {}
  }

  /** A stat message sets the stat info of its path and keeps the rest. */
  lemma StatSetsOneField(s: State, p: Path, info: Info)
    requires IdsMatchDocs(s)
    ensures OnStat(s, p, info).docs == s.docs[p := Doc(p, Some(info), if p in s.docs then s.docs[p].meta else None)]
  {
  }

  lemma MetaSetsOneField(s: State, p: Path, md: Md)
    requires IdsMatchDocs(s)
    ensures OnMeta(s, p, md).docs == s.docs[p := Doc(p, if p in s.docs then s.docs[p].stat else None, Some(md))]
  {
  }

  lemma StatKeepsIds(s: State, p: Path, info: Info)
    requires IdsMatchDocs(s)
    ensures IdsMatchDocs(OnStat(s, p, info))
  {
    StatSetsOneField(s, p, info);
  }

  lemma StatKeepsListed(s: State, p: Path, info: Info)
    requires IdsMatchDocs(s) && ListedOk(s)
    ensures ListedOk(OnStat(s, p, info))
  {
    StatSetsOneField(s, p, info);
  }

  lemma StatKeepsFetch(s: State, p: Path, info: Info)
    requires FetchOk(s)
    ensures FetchOk(OnStat(s, p, info))
  {
    assert OnStat(s, p, info).gotStat.Keys == s.gotStat.Keys + {p};
  }

  lemma StatKeepsInv(s: State, p: Path, info: Info)
    requires Inv(s) && s.statOpen
    ensures Inv(OnStat(s, p, info))
  {
    hide IdsMatchDocs, ListedOk, FetchOk;
    StatKeepsIds(s, p, info);
    StatKeepsListed(s, p, info);
    StatKeepsFetch(s, p, info);
  }

  lemma MetaKeepsIds(s: State, p: Path, md: Md)
    requires IdsMatchDocs(s)
    ensures IdsMatchDocs(OnMeta(s, p, md))
  {
    MetaSetsOneField(s, p, md);
  }

  lemma MetaKeepsListed(s: State, p: Path, md: Md)
    requires IdsMatchDocs(s) && ListedOk(s)
    ensures ListedOk(OnMeta(s, p, md))
  {
    MetaSetsOneField(s, p, md);
  }

  lemma MetaKeepsFetch(s: State, p: Path, md: Md)
    requires FetchOk(s)
    ensures FetchOk(OnMeta(s, p, md))
  {
    assert OnMeta(s, p, md).gotMeta.Keys == s.gotMeta.Keys + {p};
  }

  lemma MetaKeepsInv(s: State, p: Path, md: Md)
    requires Inv(s) && s.metaOpen
    ensures Inv(OnMeta(s, p, md))
  {
    hide IdsMatchDocs, ListedOk, FetchOk;
    MetaKeepsIds(s, p, md);
    MetaKeepsListed(s, p, md);
    MetaKeepsFetch(s, p, md);
  }

  lemma CloseKeepsInv(s: State, stream: Stream)
    requires Inv(s) && Enabled(s, End(stream))
    ensures Inv(Close(s, stream)) && (Done(Close(s, stream)) <==> s.nDone + 1 == s.nExpected)
  {
  }

  lemma ListingIsConsistent(s: State)
    requires s.docs == Listing(s.gotStat, s.gotMeta)
    requires s.statIds == s.gotStat.Keys && s.metaIds == s.gotMeta.Keys
    ensures IdsMatchDocs(s) && ListedOk(s)
  {
  }

  lemma EndKeepsInv(s: State, stream: Stream)
    requires Inv(s) && Enabled(s, End(stream))
    ensures Inv(OnEnd(s, stream))
  {
    hide IdsMatchDocs, ListedOk, Pruned;
    var s' := OnEnd(s, stream);
    CloseKeepsInv(s, stream);
    if s'.nDone >= s'.nExpected {
      PrunedIsListing(s);
      assert s'.statIds == s.gotStat.Keys && s'.metaIds == s.gotMeta.Keys;
      hide FetchOk;
      ListingIsConsistent(s');
    }
  }

  lemma BeginKeepsInv(s: State, hasMeta: bool)
    requires Inv(s) && Done(s)
    ensures Inv(Step(s, Begin(hasMeta)))
  {
    hide IdsMatchDocs;
    var s' := Step(s, Begin(hasMeta));
    assert IdsMatchDocs(s') by { SameIds(s, s'); }
  }

  /** The invariant on the ids depends on the published documents and the ids alone. */
  lemma SameIds(s: State, s': State)
    requires IdsMatchDocs(s) && s.docs == s'.docs && s.statIds == s'.statIds && s.metaIds == s'.metaIds
    ensures IdsMatchDocs(s')
  {
  }

  lemma ErrorKeepsInv(s: State, stream: Stream)
    requires Inv(s) && Enabled(s, Error(stream))
    ensures Inv(Step(s, Error(stream)))
  {
    SameIds(s, Step(s, Error(stream)));
  }

  lemma StepKeepsInv(s: State, ev: Event)
    requires Inv(s)
    ensures Inv(Step(s, ev))
  {
    hide IdsMatchDocs, ListedOk, FetchOk, OnStat, OnMeta, OnEnd;
    if Enabled(s, ev) {
      match ev
      case Begin(hasMeta) => BeginKeepsInv(s, hasMeta);
      case StatMsg(p, info) => StatKeepsInv(s, p, info);
      case MetaMsg(p, md) => if md.Some? { MetaKeepsInv(s, p, md.value); }
      case End(stream) => EndKeepsInv(s, stream);
      case Error(stream) => ErrorKeepsInv(s, stream);
    }
  }

  lemma {:induction false} RunKeepsInv(s: State, evs: seq<Event>)
    requires Inv(s)
    ensures Inv(Run(s, evs))
  {
    if evs != [] {
      RunKeepsInv(s, evs[..|evs| - 1]);
      StepKeepsInv(Run(s, evs[..|evs| - 1]), evs[|evs| - 1]);
    }
  }

  /** The listings that a sequence of events contains. */
  function StatListing(evs: seq<Event>): map<Path, Info> {
    if evs == [] then map[]
    else
      var rest, ev := StatListing(evs[..|evs| - 1]), evs[|evs| - 1];
      if ev.StatMsg? then rest[ev.p := ev.info] else rest
  }

  function MetaListing(evs: seq<Event>): map<Path, Md> {
    if evs == [] then map[]
    else
      var rest, ev := MetaListing(evs[..|evs| - 1]), evs[|evs| - 1];
      if ev.MetaMsg? && ev.md.Some? then rest[ev.p := ev.md.value] else rest
  }

  predicate HasError(evs: seq<Event>) {
    evs != [] && (HasError(evs[..|evs| - 1]) || evs[|evs| - 1].Error?)
  }

  /** The events of one fetch after its begin: all apply and no fetch begins among them. */
  predicate OneFetch(s: State, evs: seq<Event>) {
    evs == [] ||
    var rest, ev := evs[..|evs| - 1], evs[|evs| - 1];
    OneFetch(s, rest) && !ev.Begin? && Enabled(Run(s, rest), ev)
  }

  /** One event adds its message to what the fetch has got, and the last event of a fetch
      without errors publishes exactly that. */
  lemma StepListing(s: State, ev: Event)
    requires Inv(s) && Enabled(s, ev) && !ev.Begin?
    ensures Step(s, ev).gotStat == if ev.StatMsg? then s.gotStat[ev.p := ev.info] else s.gotStat
    ensures Step(s, ev).gotMeta == if ev.MetaMsg? && ev.md.Some? then s.gotMeta[ev.p := ev.md.value] else s.gotMeta
    ensures Step(s, ev).failed <==> s.failed || ev.Error?
    ensures Done(Step(s, ev)) && ev.End? ==> Step(s, ev).docs == Listing(s.gotStat, s.gotMeta)
    ensures Done(Step(s, ev)) ==> ev.End? || ev.Error?
  {
    hide IdsMatchDocs, ListedOk, Pruned, Changed;
    if ev.End? {
      PrunedIsListing(s);
    }
  }

  lemma {:induction false} FetchInvariant(s: State, evs: seq<Event>)
    requires Inv(s) && !Done(s) && !s.failed && s.gotStat == map[] && s.gotMeta == map[]
    requires OneFetch(s, evs)
    ensures var t := Run(s, evs);
            && Inv(t) && t.gotStat == StatListing(evs) && t.gotMeta == MetaListing(evs)
            && (t.failed <==> HasError(evs))
            && (Done(t) && !t.failed ==> t.docs == Listing(t.gotStat, t.gotMeta))
  {
    if evs != [] {
      var rest, ev := evs[..|evs| - 1], evs[|evs| - 1];
      FetchInvariant(s, rest);
      StepKeepsInv(Run(s, rest), ev);
      StepListing(Run(s, rest), ev);
    }
  }

  // What the streams of a fetch can do, in terms of its events.

  predicate Finished(evs: seq<Event>, stream: Stream) {
    End(stream) in evs || Error(stream) in evs
  }

  /** Whether `ev` can follow the events `past` of a fetch: a stream exists, which for the
      meta stream means that the repo has a meta tree, and is silent after it finished. */
  predicate CanFollow(hasMeta: bool, past: seq<Event>, ev: Event) {
    match ev
    case Begin(_) => false
    case StatMsg(_, _) => !Finished(past, StatStream)
    case MetaMsg(_, _) => hasMeta && !Finished(past, MetaStream)
    case End(stream) => (stream == MetaStream ==> hasMeta) && !Finished(past, stream)
    case Error(stream) => (stream == MetaStream ==> hasMeta) && !Finished(past, stream)
  }

  ghost predicate IsFetch(hasMeta: bool, evs: seq<Event>) {
    forall i :: 0 <= i < |evs| ==> CanFollow(hasMeta, evs[..i], evs[i])
  }

  predicate AllFinished(hasMeta: bool, evs: seq<Event>) {
    Finished(evs, StatStream) && (hasMeta ==> Finished(evs, MetaStream))
  }

  lemma IsFetchOneMore(hasMeta: bool, evs: seq<Event>)
    requires evs != []
    ensures var n := |evs| - 1;
            IsFetch(hasMeta, evs) <==> IsFetch(hasMeta, evs[..n]) && CanFollow(hasMeta, evs[..n], evs[n])
  {
    hide CanFollow;
    var n := |evs| - 1;
    assert forall i | 0 <= i < n :: evs[..n][..i] == evs[..i];
    if IsFetch(hasMeta, evs) {
      forall i | 0 <= i < n ensures CanFollow(hasMeta, evs[..n][..i], evs[..n][i]) {
        assert CanFollow(hasMeta, evs[..i], evs[i]);
      }
    }
    if IsFetch(hasMeta, evs[..n]) && CanFollow(hasMeta, evs[..n], evs[n]) {
      forall i | 0 <= i < |evs| ensures CanFollow(hasMeta, evs[..i], evs[i]) {
        if i < n {
          assert CanFollow(hasMeta, evs[..n][..i], evs[..n][i]);
        }
      }
    }
  }

  lemma FinishedOneMore(evs: seq<Event>, stream: Stream)
    requires evs != []
    ensures var n := |evs| - 1;
            Finished(evs, stream) <==> Finished(evs[..n], stream) || evs[n] == End(stream) || evs[n] == Error(stream)
  {
    assert evs == evs[..|evs| - 1] + [evs[|evs| - 1]];
  }

  lemma StepCloses(s: State, ev: Event)
    requires Enabled(s, ev) && !ev.Begin?
    ensures Step(s, ev).statOpen <==> s.statOpen && ev != End(StatStream) && ev != Error(StatStream)
    ensures Step(s, ev).metaOpen <==> s.metaOpen && ev != End(MetaStream) && ev != Error(MetaStream)
  {
    hide Pruned, Changed;
  }

  /** A stream is open after the events of a fetch exactly if it exists and has not finished. */
  lemma {:induction false} StreamsOpenExactly(s: State, hasMeta: bool, evs: seq<Event>)
    requires Done(s)
    ensures var s1 := Step(s, Begin(hasMeta));
            && (OneFetch(s1, evs) <==> IsFetch(hasMeta, evs))
            && (IsFetch(hasMeta, evs) ==>
                  && (Run(s1, evs).statOpen <==> !Finished(evs, StatStream))
                  && (Run(s1, evs).metaOpen <==> hasMeta && !Finished(evs, MetaStream)))
  {
    if evs != [] {
      var s1, n := Step(s, Begin(hasMeta)), |evs| - 1;
      StreamsOpenExactly(s, hasMeta, evs[..n]);
      IsFetchOneMore(hasMeta, evs);
      hide IsFetch, Step;
      if IsFetch(hasMeta, evs) {
        StepCloses(Run(s1, evs[..n]), evs[n]);
        FinishedOneMore(evs, StatStream);
        FinishedOneMore(evs, MetaStream);
      }
    }
  }

  /** After any history, failed fetches included, every sequence of events that the streams
      of a fetch can produce applies.  The fetch is done exactly if all its streams finished;
      if they did so without error, it publishes exactly the union of the stat and meta
      messages it received. */
  lemma FetchPublishesItsListing(history: seq<Event>, hasMeta: bool, evs: seq<Event>)
    requires Done(Run(INIT, history)) && IsFetch(hasMeta, evs)
    ensures var s := Step(Run(INIT, history), Begin(hasMeta));
            && OneFetch(s, evs)
            && (Done(Run(s, evs)) <==> AllFinished(hasMeta, evs))
            && (AllFinished(hasMeta, evs) && !HasError(evs) ==>
                  Run(s, evs).docs == Listing(StatListing(evs), MetaListing(evs)))
  {
    hide IsFetch;
    StreamsOpenExactly(Run(INIT, history), hasMeta, evs);
    RunKeepsInv(INIT, history);
    StepKeepsInv(Run(INIT, history), Begin(hasMeta));
    FetchInvariant(Step(Run(INIT, history), Begin(hasMeta)), evs);
  }

  /** The documents `docs` with the listed fields set. */
  function Patched(docs: map<Path, Doc>, stat: map<Path, Info>, meta: map<Path, Md>): map<Path, Doc> {
    map p | p in docs.Keys + stat.Keys + meta.Keys ::
      Doc(p,
          if p in stat then Some(stat[p]) else if p in docs then docs[p].stat else None,
          if p in meta then Some(meta[p]) else if p in docs then docs[p].meta else None)
  }

  lemma PatchedStat(docs: map<Path, Doc>, stat: map<Path, Info>, meta: map<Path, Md>, p: Path, info: Info)
    ensures var d := Patched(docs, stat, meta);
            Patched(docs, stat[p := info], meta) == d[p := Doc(p, Some(info), if p in d then d[p].meta else None)]
  {
  }

  lemma PatchedMeta(docs: map<Path, Doc>, stat: map<Path, Info>, meta: map<Path, Md>, p: Path, md: Md)
    ensures var d := Patched(docs, stat, meta);
            Patched(docs, stat, meta[p := md]) == d[p := Doc(p, if p in d then d[p].stat else None, Some(md))]
  {
  }

  /** An event that does not prune patches the documents. */
  lemma StepPatches(s: State, ev: Event, docs: map<Path, Doc>, stat: map<Path, Info>, meta: map<Path, Md>)
    requires Inv(s) && Enabled(s, ev) && !ev.Begin? && s.docs == Patched(docs, stat, meta)
    requires !(Done(Step(s, ev)) && ev.End?)
    ensures Step(s, ev).docs ==
            if ev.StatMsg? then Patched(docs, stat[ev.p := ev.info], meta)
            else if ev.MetaMsg? && ev.md.Some? then Patched(docs, stat, meta[ev.p := ev.md.value])
            else Patched(docs, stat, meta)
  {
    hide IdsMatchDocs, ListedOk, Patched, OnStat, OnMeta, Pruned;
    match ev
    case StatMsg(p, info) =>
      StatSetsOneField(s, p, info);
      PatchedStat(docs, stat, meta, p, info);
    case MetaMsg(p, md) =>
      if md.Some? {
        MetaSetsOneField(s, p, md.value);
        PatchedMeta(docs, stat, meta, p, md.value);
      }
    case End(stream) => CloseKeepsInv(s, stream);
    case Error(stream) =>
  }

  /** The last event of a fetch is the end of its last stream. */
  predicate Prunes(hasMeta: bool, evs: seq<Event>) {
    evs != [] && AllFinished(hasMeta, evs) && evs[|evs| - 1].End?
  }

  lemma {:induction false} FetchPatches(s: State, hasMeta: bool, evs: seq<Event>)
    requires Inv(s) && Done(s) && IsFetch(hasMeta, evs)
    ensures var t := Run(Step(s, Begin(hasMeta)), evs);
            t.docs == if Prunes(hasMeta, evs) then Listing(StatListing(evs), MetaListing(evs))
                      else Patched(s.docs, StatListing(evs), MetaListing(evs))
  {
    var s1 := Step(s, Begin(hasMeta));
    if evs == [] {
      assert Patched(s.docs, map[], map[]) == s.docs;
    } else {
      var rest, ev := evs[..|evs| - 1], evs[|evs| - 1];
      IsFetchOneMore(hasMeta, evs);
      StreamsOpenExactly(s, hasMeta, rest);
      StreamsOpenExactly(s, hasMeta, evs);
      StepKeepsInv(s, Begin(hasMeta));
      FetchInvariant(s1, rest);
      FetchPatches(s, hasMeta, rest);
      hide IsFetch, Inv, Step, Patched;
      assert !Prunes(hasMeta, rest);
      var t := Run(s1, rest);
      if Prunes(hasMeta, evs) {
        StepListing(t, ev);
      } else {
        StepPatches(t, ev, s.docs, StatListing(rest), MetaListing(rest));
      }
    }
  }

  /** What is published at any time during or after a fetch, whatever preceded it and
      whichever streams fail: the former documents with the received fields set, until the
      end of the last stream leaves exactly what the fetch received. */
  lemma PublishedExactly(history: seq<Event>, hasMeta: bool, evs: seq<Event>)
    requires Done(Run(INIT, history)) && IsFetch(hasMeta, evs)
    ensures var s := Run(INIT, history);
            Run(Step(s, Begin(hasMeta)), evs).docs ==
            if Prunes(hasMeta, evs) then Listing(StatListing(evs), MetaListing(evs))
            else Patched(s.docs, StatListing(evs), MetaListing(evs))
  {
    hide Inv, Step, IsFetch, Patched;
    RunKeepsInv(INIT, history);
    FetchPatches(Run(INIT, history), hasMeta, evs);
  }

  predicate AreStatMessages(msgs: seq<Event>) {
    forall m | m in msgs :: m.StatMsg?
  }

  lemma {:induction false} OnlyStatMessages(msgs: seq<Event>)
    requires AreStatMessages(msgs)
    ensures !HasError(msgs) && MetaListing(msgs) == map[]
  {
    if msgs != [] {
      assert msgs[|msgs| - 1] in msgs;
      OnlyStatMessages(msgs[..|msgs| - 1]);
    }
  }

  lemma StatStreamIsFetch(hasMeta: bool, msgs: seq<Event>)
    requires AreStatMessages(msgs)
    ensures IsFetch(hasMeta, msgs + [End(StatStream)])
    ensures !Finished(msgs + [End(StatStream)], MetaStream)
  {
    var evs := msgs + [End(StatStream)];
    forall i | 0 <= i < |evs| ensures CanFollow(hasMeta, evs[..i], evs[i]) {
      assert forall e | e in evs[..i] :: e in msgs;
      assert !Finished(evs[..i], StatStream);
      if i < |msgs| {
        assert evs[i] in msgs;
      }
    }
  }

  /** Stat messages and the end of the stat stream can follow the begin of any fetch.
      Without a meta tree they finish it and publish exactly what they list; with a meta tree
      the fetch goes on. */
  lemma StatStreamFinishesExactlyWithoutMeta(history: seq<Event>, hasMeta: bool, msgs: seq<Event>)
    requires Done(Run(INIT, history)) && AreStatMessages(msgs)
    ensures var s := Step(Run(INIT, history), Begin(hasMeta));
            var t := Run(s, msgs + [End(StatStream)]);
            && OneFetch(s, msgs + [End(StatStream)])
            && (Done(t) <==> !hasMeta)
            && (!hasMeta ==> t.docs == Listing(StatListing(msgs), map[]))
  {
    var evs := msgs + [End(StatStream)];
    assert evs[..|evs| - 1] == msgs;
    OnlyStatMessages(msgs);
    StatStreamIsFetch(hasMeta, msgs);
    hide IsFetch, Step, Run;
    FetchPublishesItsListing(history, hasMeta, evs);
  }

  // Failed fetches.

  /** The event that finishes a fetch prunes the unseen files if and only if it is an
      `End`.  An earlier error of the other stream does not matter. */
  lemma PrunesExactlyIfLastStreamEnds(s: State, ev: Event)
    requires Inv(s) && !Done(s) && Enabled(s, ev) && Done(Step(s, ev))
    requires s.unseenStat + s.unseenMeta != {}
    ensures Step(s, ev).docs == Listing(s.gotStat, s.gotMeta) <==> ev.End?
  {
    if ev.End? {
      PrunedIsListing(s);
    } else {
      var p :| p in s.unseenStat + s.unseenMeta;
      assert p in s.docs;
      assert s.docs[p] != Doc(p, Get(s.gotStat, p), Get(s.gotMeta, p));
    }
  }

  /** The source promises that unseen files are removed when all streams ended successfully.
      The event that finishes a fetch breaks this promise, which means that files are removed
      although a stream failed, if and only if it is an `End` after a failure. */
  lemma PromiseBrokenExactly(s: State, ev: Event)
    requires Inv(s) && !Done(s) && Enabled(s, ev) && Done(Step(s, ev))
    requires s.unseenStat + s.unseenMeta != {}
    ensures Step(s, ev).docs != s.docs && Step(s, ev).failed <==> s.failed && ev.End?
  {
    PrunesExactlyIfLastStreamEnds(s, ev);
    if ev.End? {
      var p :| p in s.unseenStat + s.unseenMeta;
      assert p in s.docs;
      assert s.docs[p] != Doc(p, Get(s.gotStat, p), Get(s.gotMeta, p));
    }
  }

  /** The source promises to remove unseen files only when all streams ended
      successfully.  Here file `p` is removed although the stat stream failed before it
      could list it: from any state between fetches that publishes `p`. */
  lemma FailedStatStreamRemovesFiles(s: State, p: Path)
    requires Inv(s) && Done(s) && p in s.docs
    ensures var s3 := Step(Step(Step(s, Begin(true)), Error(StatStream)), End(MetaStream));
            Done(s3) && s3.failed && s3.docs == map[]
  {
    var s1 := Step(s, Begin(true));
    StepKeepsInv(s, Begin(true));
    var s2 := Step(s1, Error(StatStream));
    StepKeepsInv(s1, Error(StatStream));
    PrunedIsListing(s2);
  }

  // The subscription object.

  /** `Added`, `SetStat`, `SetMeta` and `Removed` are the calls to the client.  Their
      preconditions say when Meteor allows them. */
  class Subscription {
    var docs: map<Path, Doc>
    var statIds: set<Path>
    var metaIds: set<Path>
    var unseenStat: set<Path>
    var unseenMeta: set<Path>
    var nDone: nat
    var nExpected: nat
    ghost var s: State

    ghost predicate Valid()
      reads this
    {
      && Inv(s)
      && s.docs == docs && s.statIds == statIds && s.metaIds == metaIds
      && s.unseenStat == unseenStat && s.unseenMeta == unseenMeta
      && s.nDone == nDone && s.nExpected == nExpected
    }

    constructor ()
      ensures Valid() && s == INIT
    {
      docs, statIds, metaIds, unseenStat, unseenMeta := map[], {}, {}, {}, {};
      nDone, nExpected, s := 0, 0, INIT;
    }

    method Added(d: Doc)
      requires d.path !in docs
      modifies this`docs
      ensures docs == old(docs)[d.path := d]
    {
      docs := docs[d.path := d];
    }

    method SetStat(p: Path, stat: Option<Info>)
      requires p in docs
      modifies this`docs
      ensures docs == old(docs)[p := old(docs)[p].(stat := stat)]
    {
      docs := docs[p := docs[p].(stat := stat)];
    }

    method SetMeta(p: Path, meta: Option<Md>)
      requires p in docs
      modifies this`docs
      ensures docs == old(docs)[p := old(docs)[p].(meta := meta)]
    {
      docs := docs[p := docs[p].(meta := meta)];
    }

    method Removed(p: Path)
      requires p in docs
      modifies this`docs
      ensures docs == old(docs) - {p}
    {
      docs := docs - {p};
    }

    method FetchOnce(hasMeta: bool)
      requires Valid() && Enabled(s, Begin(hasMeta))
      modifies this
      ensures Valid() && s == Step(old(s), Begin(hasMeta))
    {
      unseenStat, unseenMeta := statIds, metaIds;
      nExpected := if hasMeta then 2 else 1;
      nDone := 0;
      s := Step(s, Begin(hasMeta));
    }

    method StatMessage(p: Path, info: Info)
      requires Valid() && Enabled(s, StatMsg(p, info))
      modifies this
      ensures Valid() && s == Step(old(s), StatMsg(p, info))
    {
      hide ListedOk, FetchOk;
      StepKeepsInv(s, StatMsg(p, info));
      assert s.docs.Keys == s.statIds + s.metaIds;
      hide Inv, IdsMatchDocs;
      var isNew := false;
      if p !in statIds {
        statIds := statIds + {p};
        isNew := p !in metaIds;
      }
      if isNew {
        Added(Doc(p, Some(info), None));
      } else {
        SetStat(p, Some(info));
        unseenStat := unseenStat - {p};
      }
      s := Step(s, StatMsg(p, info));
    }

    method MetaMessage(p: Path, md: Option<Md>)
      requires Valid() && Enabled(s, MetaMsg(p, md))
      modifies this
      ensures Valid() && s == Step(old(s), MetaMsg(p, md))
    {
      hide ListedOk, FetchOk;
      StepKeepsInv(s, MetaMsg(p, md));
      assert s.docs.Keys == s.statIds + s.metaIds;
      hide Inv, IdsMatchDocs;
      if md.None? {
        return;
      }
      var isNew := false;
      if p !in metaIds {
        metaIds := metaIds + {p};
        isNew := p !in statIds;
      }
      if isNew {
        Added(Doc(p, None, md));
      } else {
        SetMeta(p, md);
        unseenMeta := unseenMeta - {p};
      }
      s := Step(s, MetaMsg(p, md));
    }

    /** Remove the unseen ids from the state and tell how to handle the documents. */
    method DeleteIds() returns (rm: set<Path>, rmStat: set<Path>, rmMeta: set<Path>)
      requires statIds == s.statIds && metaIds == s.metaIds
      requires unseenStat == s.unseenStat && unseenMeta == s.unseenMeta
      modifies this`statIds, this`metaIds
      ensures rm == Rm(s) && rmStat == RmStat(s) && rmMeta == RmMeta(s)
      ensures statIds == s.statIds - s.unseenStat && metaIds == s.metaIds - s.unseenMeta
    {
      rm, rmStat, rmMeta := {}, {}, {};
      var todo := unseenStat;
      while todo != {}
        invariant todo <= unseenStat && metaIds == s.metaIds
        invariant statIds == s.statIds - (unseenStat - todo)
        invariant rm == set p | p in unseenStat - todo && (p in unseenMeta || p !in metaIds)
        invariant rmStat == set p | p in unseenStat - todo && p !in unseenMeta && p in metaIds
      {
        var id :| id in todo;
        statIds := statIds - {id};
        if id in unseenMeta {
          rm := rm + {id};
        } else if id in metaIds {
          rmStat := rmStat + {id};
        } else {
          rm := rm + {id};
        }
        todo := todo - {id};
      }
      ghost var rm1 := rm;
      todo := unseenMeta;
      while todo != {}
        invariant todo <= unseenMeta && statIds == s.statIds - unseenStat
        invariant metaIds == s.metaIds - (unseenMeta - todo)
        invariant rm == rm1 + set p | p in unseenMeta - todo && (p in unseenStat || p !in statIds)
        invariant rmMeta == set p | p in unseenMeta - todo && p !in unseenStat && p in statIds
      {
        var id :| id in todo;
        metaIds := metaIds - {id};
        if id in unseenStat {
          rm := rm + {id};
        } else if id in statIds {
          rmMeta := rmMeta + {id};
        } else {
          rm := rm + {id};
        }
        todo := todo - {id};
      }
    }

    /** Apply what `DeleteIds` tells. */
    method Prune()
      requires docs == s.docs && statIds == s.statIds && metaIds == s.metaIds
      requires unseenStat == s.unseenStat && unseenMeta == s.unseenMeta
      requires IdsMatchDocs(s) && FetchOk(s)
      modifies this`docs, this`statIds, this`metaIds
      ensures docs == Pruned(s)
      ensures statIds == s.statIds - s.unseenStat && metaIds == s.metaIds - s.unseenMeta
    {
      PrunedArePublished(s);
      PrunedInSteps(s);
      hide IdsMatchDocs, FetchOk, Rm, RmStat, RmMeta, Pruned;
      var rm, rmStat, rmMeta := DeleteIds();
      UnsetStat(rmStat);
      UnsetMeta(rmMeta);
      RemoveAll(rm);
    }

    method DoneEnd(stream: Stream)
      requires Valid() && Enabled(s, End(stream))
      modifies this
      ensures Valid() && s == Step(old(s), End(stream))
    {
      hide IdsMatchDocs, ListedOk, Pruned;
      StepKeepsInv(s, End(stream));
      nDone := nDone + 1;
      if nDone < nExpected {
        hide FetchOk;
        s := Step(s, End(stream));
        return;
      }
      Prune();
      hide Inv;
      s := Step(s, End(stream));
    }

    method UnsetStat(ids: set<Path>)
      requires ids <= docs.Keys
      modifies this`docs
      ensures docs == WithoutStat(old(docs), ids)
    {
      var todo := ids;
      while todo != {}
        invariant todo <= ids
        invariant docs == WithoutStat(old(docs), ids - todo)
      {
        var id :| id in todo;
        SetStat(id, None);
        todo := todo - {id};
      }
    }

    method UnsetMeta(ids: set<Path>)
      requires ids <= docs.Keys
      modifies this`docs
      ensures docs == WithoutMeta(old(docs), ids)
    {
      var todo := ids;
      while todo != {}
        invariant todo <= ids
        invariant docs == WithoutMeta(old(docs), ids - todo)
      {
        var id :| id in todo;
        SetMeta(id, None);
        todo := todo - {id};
      }
    }

    method RemoveAll(ids: set<Path>)
      requires ids <= docs.Keys
      modifies this`docs
      ensures docs == old(docs) - ids
    {
      var todo := ids;
      while todo != {}
        invariant todo <= ids
        invariant docs == old(docs) - (ids - todo)
      {
        var id :| id in todo;
        Removed(id);
        todo := todo - {id};
      }
    }

    method DoneError(stream: Stream)
      requires Valid() && Enabled(s, Error(stream))
      modifies this
      ensures Valid() && s == Step(old(s), Error(stream))
    {
      nDone := nDone + 1;
      s := Step(s, Error(stream));
    }
  }
}
