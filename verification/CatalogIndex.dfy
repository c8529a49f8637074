/** The index of a catalog volume: which repos refer to an entry, at which paths.

    A scan of a repo walks its tree and adds a `refpath` per selected entry.  The walk may
    abort at any callback, because the lock was lost or content is missing.  A completed
    scan drops the refpaths of other commits. */
module CatalogIndex {
  import opened Wrappers
  import opened Merkle

  datatype Attrs = Attrs(name: string, meta: string)

  /** A compiled pipeline function: it may drop the content or change its attributes, and
      it keeps the id and the path. */
  type Fn = (Id, string, Attrs) -> Option<Attrs>

  type RepoId = string
  datatype Commit = Commit(tree: Id, message: string)
  datatype Repo = Repo(id: RepoId, owner: string, name: string, commit: Commit)
  datatype RefPath = RefPath(repoId: RepoId, owner: string, repo: string, commit: Commit, path: string)

  /** The documents of a volume with their `refpaths`. */
  type Volume = map<Id, set<RefPath>>

  // The tree walk.

  datatype Visit = Visit(kind: Kind, id: Id, path: string)

  function Path(id: Id, parent: Option<string>): string {
    if parent.None? then "" else if parent.value == "" then id.name else parent.value + "/" + id.name
  }

  /** All entries below `ref` in preorder, as a walk visits them if nothing is missing. */
  function FullWalk(ref: Ref, parent: Option<string>): seq<Visit>
    decreases ref
  {
    var path := Path(ref.id, parent);
    [Visit(ref.kind, ref.id, path)] + (if ref.id.TreeId? then WalkAll(ref.id.entries, path) else [])
  }

  function WalkAll(entries: seq<Ref>, path: string): seq<Visit>
    decreases entries
  {
    if entries == [] then []
    else WalkAll(entries[..|entries| - 1], path) + FullWalk(entries[|entries| - 1], Some(path))
  }

  function RepoWalk(commit: Commit): seq<Visit> {
    FullWalk(Ref(TreeKind, commit.tree), None)
  }

  predicate Passes(fns: seq<Fn>, id: Id, path: string, a: Attrs) {
    fns == [] ||
    var r := fns[0](id, path, a);
    r.Some? && Passes(fns[1..], id, path, r.value)
  }

  predicate Selected(fns: seq<Fn>, v: Visit) {
    Passes(fns, v.id, v.path, Attrs(v.id.name, v.id.meta))
  }

  /** What a catalog should list for a repo at a commit. */
  function SelectedPairs(fns: seq<Fn>, commit: Commit): set<(Id, string)> {
    set v | v in RepoWalk(commit) && Selected(fns, v) :: (v.id, v.path)
  }

  // What a catalog should list, without the walk.

  /** A chain of references from the root: each id is among the entries of the one before. */
  ghost predicate Chain(root: Id, ids: seq<Id>) {
    && ids != [] && ids[0] == root
    && forall i :: 0 < i < |ids| ==> IsEntryOf(ids[i], ids[i - 1])
  }

  ghost predicate IsEntryOf(id: Id, tree: Id) {
    tree.TreeId? && exists e :: e in tree.entries && e.id == id
  }

  function Names(ids: seq<Id>): seq<string> {
    seq(|ids|, i requires 0 <= i < |ids| => ids[i].name)
  }

  function Join(names: seq<string>): string {
    if |names| == 0 then ""
    else if |names| == 1 then names[0]
    else Join(names[..|names| - 1]) + "/" + names[|names| - 1]
  }

  /** The names without the empty ones in front. */
  function Stripped(names: seq<string>): seq<string> {
    if names != [] && names[0] == "" then Stripped(names[1..]) else names
  }

  /** A chain of any length leads from the tree of the commit to `id`, and the names after the
      root, joined with slashes, are the path.  Empty names in front do not count: the source
      takes the path of such an entry for that of the root. */
  ghost predicate Reaches(root: Id, id: Id, path: string) {
    exists ids :: Chain(root, ids) && ids[|ids| - 1] == id && path == Join(Stripped(Names(ids[1..])))
  }

  /** Leaving out empty names in front makes no difference to the joined names if and only if
      there is at most one name or the first one is not empty. */
  lemma {:induction false} StrippedJoinsAlikeExactly(names: seq<string>)
    ensures Join(Stripped(names)) == Join(names) <==> |names| <= 1 || names[0] != ""
  {
    if |names| <= 1 {
      assert names == [] || names[1..] == [];
    } else if names[0] == "" {
      assert Stripped(names) == Stripped(names[1..]);
      hide Join, Length, Stripped;
      assert names == [""] + names[1..];
      JoinLength(names);
      StrippedIsShorter(names[1..]);
    }
  }

  /** The length of the joined names is that of the names and the slashes. */
  function Length(names: seq<string>): int {
    if |names| == 0 then 0
    else if |names| == 1 then |names[0]|
    else Length(names[..|names| - 1]) + 1 + |names[|names| - 1]|
  }

  lemma {:induction false} JoinLength(names: seq<string>)
    ensures |Join(names)| == Length(names)
  {
    if |names| > 1 {
      JoinLength(names[..|names| - 1]);
    }
  }

  lemma {:induction false} LengthOfRest(names: seq<string>)
    requires |names| > 1
    ensures Length(names) == |names[0]| + 1 + Length(names[1..])
  {
    if |names| > 2 {
      var front := names[..|names| - 1];
      LengthOfRest(front);
      assert front[1..] == names[1..][..|names| - 2];
    } else {
      assert names[..1] == [names[0]] && names[1..] == [names[1]];
    }
  }

  lemma {:induction false} StrippedIsShorter(names: seq<string>)
    requires names != []
    ensures |Join(Stripped(names))| <= Length(names) < Length([""] + names)
  {
    var more := [""] + names;
    LengthOfRest(more);
    assert more[1..] == names;
    JoinLength(Stripped(names));
    if names[0] == "" && |names| > 1 {
      StrippedIsShorter(names[1..]);
      LengthOfRest(names);
      JoinLength(Stripped(names[1..]));
    }
  }

  lemma {:induction false} StrippedAppend(names: seq<string>, x: string)
    ensures Stripped(names + [x]) == if Stripped(names) == [] then Stripped([x]) else Stripped(names) + [x]
    ensures Stripped(names) != [] ==> Stripped(names)[0] != ""
  {
    if names == [] {
      assert names + [x] == [x];
    } else if names[0] == "" {
      assert (names + [x])[1..] == names[1..] + [x];
      StrippedAppend(names[1..], x);
    }
  }

  lemma {:induction false} JoinIsEmpty(names: seq<string>)
    requires names != [] && names[0] != ""
    ensures Join(names) != ""
  {
  }

  /** One step down extends the joined names. */
  lemma PathOfEntry(names: seq<string>, id: Id)
    ensures Path(id, Some(Join(Stripped(names)))) == Join(Stripped(names + [id.name]))
  {
    StrippedAppend(names, id.name);
    var front := Stripped(names);
    if front == [] {
      assert Stripped([id.name]) == if id.name == "" then [] else [id.name];
    } else {
      JoinIsEmpty(front);
      assert (front + [id.name])[..|front|] == front;
    }
  }

  lemma {:induction false} WalkAllOf(entries: seq<Ref>, path: string, v: Visit)
    ensures v in WalkAll(entries, path) <==>
            exists j :: 0 <= j < |entries| && v in FullWalk(entries[j], Some(path))
  {
    if entries != [] {
      hide FullWalk;
      WalkAllOf(entries[..|entries| - 1], path, v);
      assert forall j :: 0 <= j < |entries| - 1 ==> entries[..|entries| - 1][j] == entries[j];
    }
  }

  lemma ChainFrom(root: Id, e: Ref, rest: seq<Id>)
    requires root.TreeId? && e in root.entries && Chain(e.id, rest)
    ensures Chain(root, [root] + rest)
  {
    var ids := [root] + rest;
    forall i | 0 < i < |ids| ensures IsEntryOf(ids[i], ids[i - 1]) {
      if i > 1 {
        assert IsEntryOf(rest[i - 1], rest[i - 2]);
      }
    }
  }

  lemma VisitBelow(ref: Ref, parent: Option<string>, v: Visit) returns (j: nat)
    requires v in FullWalk(ref, parent) && v != Visit(ref.kind, ref.id, Path(ref.id, parent))
    ensures ref.id.TreeId? && j < |ref.id.entries| && v in FullWalk(ref.id.entries[j], Some(Path(ref.id, parent)))
  {
    hide Path, WalkAll;
    WalkAllOf(ref.id.entries, Path(ref.id, parent), v);
    hide FullWalk;
    j :| 0 <= j < |ref.id.entries| && v in FullWalk(ref.id.entries[j], Some(Path(ref.id, parent)));
  }

  lemma NamesFrom(names: seq<string>, id: Id, rest: seq<Id>)
    requires rest != [] && rest[0] == id
    ensures names + Names(rest) == names + [id.name] + Names(rest[1..])
  {
  }

  /** What the walk visits, a chain reaches. */
  lemma {:induction false} VisitHasChain(ref: Ref, parent: Option<string>, names: seq<string>, v: Visit) returns (ids: seq<Id>)
    requires Path(ref.id, parent) == Join(Stripped(names)) && v in FullWalk(ref, parent)
    ensures Chain(ref.id, ids) && ids[|ids| - 1] == v.id && v.path == Join(Stripped(names + Names(ids[1..])))
    decreases ref
  {
    hide Join, Stripped, Path, FullWalk;
    var path := Path(ref.id, parent);
    if v == Visit(ref.kind, ref.id, path) {
      ids := [ref.id];
      assert names + Names(ids[1..]) == names;
    } else {
      var j := VisitBelow(ref, parent, v);
      var e := ref.id.entries[j];
      PathOfEntry(names, e.id);
      var rest := VisitHasChain(e, Some(path), names + [e.id.name], v);
      ids := [ref.id] + rest;
      ChainFrom(ref.id, e, rest);
      NamesFrom(names, e.id, rest);
      assert ids[1..] == rest;
    }
  }

  /** What a chain reaches, the walk visits. */
  lemma {:induction false} ChainIsVisited(ref: Ref, parent: Option<string>, names: seq<string>, ids: seq<Id>) returns (v: Visit)
    requires Path(ref.id, parent) == Join(Stripped(names)) && Chain(ref.id, ids)
    ensures v in FullWalk(ref, parent) && v.id == ids[|ids| - 1] && v.path == Join(Stripped(names + Names(ids[1..])))
    decreases |ids|
  {
    hide Join, Stripped, Path;
    var path := Path(ref.id, parent);
    if |ids| == 1 {
      v := Visit(ref.kind, ref.id, path);
      assert names + Names(ids[1..]) == names;
    } else {
      assert IsEntryOf(ids[1], ids[0]);
      var e :| e in ref.id.entries && e.id == ids[1];
      var j :| 0 <= j < |ref.id.entries| && ref.id.entries[j] == e;
      PathOfEntry(names, e.id);
      var rest := ids[1..];
      assert forall i :: 0 < i < |rest| ==> rest[i] == ids[i + 1] && rest[i - 1] == ids[i];
      v := ChainIsVisited(e, Some(path), names + [e.id.name], rest);
      WalkAllOf(ref.id.entries, path, v);
      assert names + Names(rest) == names + [e.id.name] + Names(rest[1..]);
    }
  }

  /** The walk of a commit visits exactly what chains of references reach, at their paths. */
  lemma VisitedExactly(commit: Commit, id: Id, path: string)
    ensures (exists v :: v in RepoWalk(commit) && v.id == id && v.path == path) <==> Reaches(commit.tree, id, path)
  {
    var ref := Ref(TreeKind, commit.tree);
    hide FullWalk;
    if v :| v in RepoWalk(commit) && v.id == id && v.path == path {
      var ids := VisitHasChain(ref, None, [], v);
      assert [] + Names(ids[1..]) == Names(ids[1..]);
    }
    if ids :| Chain(commit.tree, ids) && ids[|ids| - 1] == id && path == Join(Stripped(Names(ids[1..]))) {
      assert [] + Names(ids[1..]) == Names(ids[1..]);
      var v := ChainIsVisited(ref, None, [], ids);
      assert v in RepoWalk(commit);
    }
  }

  /** Every pipeline function returns content, each for the content that the one before
      returned. */
  ghost predicate Chosen(fns: seq<Fn>, id: Id, path: string) {
    exists steps: seq<Attrs> :: ChosenBy(fns, id, path, Attrs(id.name, id.meta), steps)
  }

  ghost predicate ChosenBy(fns: seq<Fn>, id: Id, path: string, a: Attrs, steps: seq<Attrs>) {
    && |steps| == |fns| + 1 && steps[0] == a
    && forall i :: 0 <= i < |fns| ==> fns[i](id, path, steps[i]) == Some(steps[i + 1])
  }

  lemma {:induction false} PassesExactly(fns: seq<Fn>, id: Id, path: string, a: Attrs)
    ensures Passes(fns, id, path, a) <==> exists steps :: ChosenBy(fns, id, path, a, steps)
  {
    if fns == [] {
      assert ChosenBy(fns, id, path, a, [a]);
    } else {
      var r := fns[0](id, path, a);
      if r.Some? {
        PassesExactly(fns[1..], id, path, r.value);
      }
      if Passes(fns, id, path, a) {
        var rest :| ChosenBy(fns[1..], id, path, r.value, rest);
        var steps := [a] + rest;
        forall i | 0 <= i < |fns| ensures fns[i](id, path, steps[i]) == Some(steps[i + 1]) {
          if i > 0 {
            assert fns[1..][i - 1](id, path, rest[i - 1]) == Some(rest[i]);
          }
        }
        assert ChosenBy(fns, id, path, a, steps);
      }
      if steps :| ChosenBy(fns, id, path, a, steps) {
        assert r == Some(steps[1]);
        assert ChosenBy(fns[1..], id, path, r.value, steps[1..]);
      }
    }
  }

  /** What a catalog should list for a repo at a commit. */
  ghost predicate Wanted(fns: seq<Fn>, commit: Commit, id: Id, path: string) {
    Reaches(commit.tree, id, path) && Chosen(fns, id, path)
  }

  lemma SelectedExactlyWanted(fns: seq<Fn>, commit: Commit, id: Id, path: string)
    ensures (id, path) in SelectedPairs(fns, commit) <==> Wanted(fns, commit, id, path)
  {
    VisitedExactly(commit, id, path);
    PassesExactly(fns, id, path, Attrs(id.name, id.meta));
    hide RepoWalk, Passes, Reaches, ChosenBy;
    if Wanted(fns, commit, id, path) {
      var v :| v in RepoWalk(commit) && v.id == id && v.path == path;
      assert Selected(fns, v);
    }
  }

  // The scan.

  function RefpathsOf(vol: Volume, id: Id): set<RefPath> {
    if id in vol then vol[id] else {}
  }

  /** `insert` unless the id exists, then `$addToSet`. */
  function AddRefpath(vol: Volume, id: Id, rp: RefPath): Volume {
    vol[id := RefpathsOf(vol, id) + {rp}]
  }

  function MakeRefpath(repo: Repo, path: string): RefPath {
    RefPath(repo.id, repo.owner, repo.name, repo.commit, path)
  }

  function Callback(vol: Volume, repo: Repo, fns: seq<Fn>, v: Visit): Volume {
    if Selected(fns, v) then AddRefpath(vol, v.id, MakeRefpath(repo, v.path)) else vol
  }

  function ScanTo(vol: Volume, repo: Repo, fns: seq<Fn>, visits: seq<Visit>): Volume {
    if visits == [] then vol
    else Callback(ScanTo(vol, repo, fns, visits[..|visits| - 1]), repo, fns, visits[|visits| - 1])
  }

  function PullOtherCommits(vol: Volume, repo: Repo): Volume {
    map id | id in vol :: set rp | rp in vol[id] && !(rp.repoId == repo.id && rp.commit != repo.commit)
  }

  function PullRepo(vol: Volume, r: RepoId): Volume {
    map id | id in vol :: set rp | rp in vol[id] && rp.repoId != r
  }

  function RemoveEmpty(vol: Volume): Volume {
    map id | id in vol && vol[id] != {} :: vol[id]
  }

  function CompleteScan(vol: Volume, repo: Repo, fns: seq<Fn>): Volume {
    RemoveEmpty(PullOtherCommits(ScanTo(vol, repo, fns, RepoWalk(repo.commit)), repo))
  }

  // What the volume says.

  predicate Has(vol: Volume, id: Id, rp: RefPath) {
    rp in RefpathsOf(vol, id)
  }

  /** Repo `r` at commit `c` is listed with entry `id` at `path`. */
  ghost predicate Lists(vol: Volume, r: RepoId, c: Commit, id: Id, path: string) {
    exists rp :: Has(vol, id, rp) && rp.repoId == r && rp.commit == c && rp.path == path
  }

  /** Repo `r` is listed with entry `id` at `path`, at whatever commit. */
  ghost predicate ListsPair(vol: Volume, r: RepoId, id: Id, path: string) {
    exists rp :: Has(vol, id, rp) && rp.repoId == r && rp.path == path
  }

  /** For repo `r` the volume lists exactly the entries that the pipeline selects. */
  ghost predicate Exact(vol: Volume, r: RepoId, c: Commit, fns: seq<Fn>) {
    forall id, path :: ListsPair(vol, r, id, path) <==> (id, path) in SelectedPairs(fns, c)
  }

  /** What aborted scans at commit `c` may have left: only selected entries. */
  ghost predicate OnlySelected(vol: Volume, r: RepoId, c: Commit, fns: seq<Fn>) {
    forall id, path :: Lists(vol, r, c, id, path) ==> (id, path) in SelectedPairs(fns, c)
  }

  lemma {:induction false} ScanToAdds(vol: Volume, repo: Repo, fns: seq<Fn>, visits: seq<Visit>, id: Id, rp: RefPath)
    ensures Has(ScanTo(vol, repo, fns, visits), id, rp) <==>
            Has(vol, id, rp) ||
            (exists v :: v in visits && Selected(fns, v) && v.id == id && rp == MakeRefpath(repo, v.path))
  {
    if visits != [] {
      var rest, last := visits[..|visits| - 1], visits[|visits| - 1];
      ScanToAdds(vol, repo, fns, rest, id, rp);
      assert forall v :: v in visits <==> v in rest || v == last;
    }
  }

  lemma CompleteScanHas(vol: Volume, repo: Repo, fns: seq<Fn>, id: Id, rp: RefPath)
    ensures Has(CompleteScan(vol, repo, fns), id, rp) <==>
            if rp.repoId != repo.id then Has(vol, id, rp)
            else rp.commit == repo.commit &&
                 (Has(vol, id, rp) || (rp == MakeRefpath(repo, rp.path) && (id, rp.path) in SelectedPairs(fns, repo.commit)))
  {
    var visits := RepoWalk(repo.commit);
    ScanToAdds(vol, repo, fns, visits, id, rp);
    var full := ScanTo(vol, repo, fns, visits);
    assert Has(CompleteScan(vol, repo, fns), id, rp) <==>
           Has(full, id, rp) && !(rp.repoId == repo.id && rp.commit != repo.commit);
  }

  /** The same through the walk, which the proofs about histories use. */
  lemma CompletedScanSelects(vol: Volume, repo: Repo, fns: seq<Fn>)
    ensures Exact(CompleteScan(vol, repo, fns), repo.id, repo.commit, fns) <==> OnlySelected(vol, repo.id, repo.commit, fns)
    ensures forall id, rp: RefPath | rp.repoId != repo.id ::
              Has(CompleteScan(vol, repo, fns), id, rp) <==> Has(vol, id, rp)
    ensures forall id | id in CompleteScan(vol, repo, fns) :: CompleteScan(vol, repo, fns)[id] != {}
  {
    var done := CompleteScan(vol, repo, fns);
    forall id, rp
      ensures Has(done, id, rp) <==>
              if rp.repoId != repo.id then Has(vol, id, rp)
              else rp.commit == repo.commit &&
                   (Has(vol, id, rp) || (rp == MakeRefpath(repo, rp.path) && (id, rp.path) in SelectedPairs(fns, repo.commit)))
    {
      CompleteScanHas(vol, repo, fns, id, rp);
    }
    hide CompleteScan, Has, SelectedPairs;
    if OnlySelected(vol, repo.id, repo.commit, fns) {
      ExactAfter(vol, done, repo, fns);
    } else {
      var id, path :| Lists(vol, repo.id, repo.commit, id, path) && (id, path) !in SelectedPairs(fns, repo.commit);
      var rp :| Has(vol, id, rp) && rp.repoId == repo.id && rp.commit == repo.commit && rp.path == path;
      assert Has(done, id, rp);
      assert ListsPair(done, repo.id, id, path);
    }
  }

  lemma ExactAfter(vol: Volume, done: Volume, repo: Repo, fns: seq<Fn>)
    requires OnlySelected(vol, repo.id, repo.commit, fns)
    requires forall id, rp: RefPath | rp.repoId == repo.id ::
               Has(done, id, rp) <==>
               rp.commit == repo.commit &&
               (Has(vol, id, rp) || (rp == MakeRefpath(repo, rp.path) && (id, rp.path) in SelectedPairs(fns, repo.commit)))
    ensures Exact(done, repo.id, repo.commit, fns)
  {
    hide Has, SelectedPairs;
    forall id, path ensures ListsPair(done, repo.id, id, path) <==> (id, path) in SelectedPairs(fns, repo.commit) {
      if (id, path) in SelectedPairs(fns, repo.commit) {
        assert Has(done, id, MakeRefpath(repo, path));
      }
      if ListsPair(done, repo.id, id, path) {
        var rp :| Has(done, id, rp) && rp.repoId == repo.id && rp.path == path;
        if Has(vol, id, rp) {
          assert Lists(vol, repo.id, repo.commit, id, path);
        }
      }
    }
  }

  /** The refpaths of the repo at the commit are those of wanted entries. */
  ghost predicate OnlyWanted(vol: Volume, r: RepoId, c: Commit, fns: seq<Fn>) {
    forall id, path :: Lists(vol, r, c, id, path) ==> Wanted(fns, c, id, path)
  }

  /** A completed scan lists for the repo exactly the entries that chains of references reach
      from the tree of its commit and that the pipeline chooses, at the paths of the chains, if
      and only if what is already listed at that commit is among them.  The refpaths that it
      adds name the repo and the commit.  It keeps the refpaths of other repos and leaves no
      document without refpaths. */
  lemma CompletedScanIsExact(vol: Volume, repo: Repo, fns: seq<Fn>)
    ensures var done := CompleteScan(vol, repo, fns);
            (forall id, path :: ListsPair(done, repo.id, id, path) <==> Wanted(fns, repo.commit, id, path)) <==>
            OnlyWanted(vol, repo.id, repo.commit, fns)
    ensures forall id, path | Wanted(fns, repo.commit, id, path) ::
              Has(CompleteScan(vol, repo, fns), id, RefPath(repo.id, repo.owner, repo.name, repo.commit, path))
    ensures forall id, rp: RefPath | rp.repoId != repo.id ::
              Has(CompleteScan(vol, repo, fns), id, rp) <==> Has(vol, id, rp)
    ensures forall id | id in CompleteScan(vol, repo, fns) :: CompleteScan(vol, repo, fns)[id] != {}
  {
    CompletedScanSelects(vol, repo, fns);
    var done := CompleteScan(vol, repo, fns);
    forall id, path
      ensures (id, path) in SelectedPairs(fns, repo.commit) <==> Wanted(fns, repo.commit, id, path)
      ensures (id, path) in SelectedPairs(fns, repo.commit) ==>
                Has(done, id, RefPath(repo.id, repo.owner, repo.name, repo.commit, path))
    {
      SelectedExactlyWanted(fns, repo.commit, id, path);
      CompleteScanHas(vol, repo, fns, id, RefPath(repo.id, repo.owner, repo.name, repo.commit, path));
    }
    hide CompleteScan, Has, SelectedPairs, Wanted, Lists, ListsPair;
  }

  // Whole histories of updates of one volume.

  /** The volume and the up-to-date markers `{ repoId, commit }` of its stage. */
  datatype State = State(vol: Volume, markers: set<(RepoId, Commit)>)

  datatype Event =
    | Abort(repo: Repo, n: nat)  // Scan a repo, but abort after `n` callbacks.
    | Complete(repo: Repo)       // Scan a repo to the end.
    | Delete(r: RepoId)          // Clean up a deleted repo.

  predicate UpToDate(s: State, repo: Repo) {
    (repo.id, repo.commit) in s.markers
  }

  /** `pipe` gives the pipeline of the first config that selects a repo.  It is fixed for
      a volume, since a new config builds a new volume. */
  function Step(pipe: RepoId -> seq<Fn>, s: State, ev: Event): State {
    match ev
    case Abort(repo, n) =>
      var walk := RepoWalk(repo.commit);
      if UpToDate(s, repo) then s
      else s.(vol := ScanTo(s.vol, repo, pipe(repo.id), if n < |walk| then walk[..n] else walk))
    case Complete(repo) =>
      if UpToDate(s, repo) then s
      else State(CompleteScan(s.vol, repo, pipe(repo.id)),
                 (set m | m in s.markers && m.0 != repo.id) + {(repo.id, repo.commit)})
    case Delete(r) => State(RemoveEmpty(PullRepo(s.vol, r)), set m | m in s.markers && m.0 != r)
  }

  function Run(pipe: RepoId -> seq<Fn>, evs: seq<Event>): State {
    if evs == [] then State(map[], {}) else Step(pipe, Run(pipe, evs[..|evs| - 1]), evs[|evs| - 1])
  }

  /** Every refpath comes from a walk of its commit, and a marked commit is complete. */
  ghost predicate Inv(pipe: RepoId -> seq<Fn>, s: State) {
    && (forall r, c :: OnlySelected(s.vol, r, c, pipe(r)))
    && (forall r, c, id, path | (r, c) in s.markers && (id, path) in SelectedPairs(pipe(r), c) ::
          Lists(s.vol, r, c, id, path))
    && (forall r, c, c' | (r, c) in s.markers && (r, c') in s.markers :: c == c')
  }

  lemma AbortLists(vol: Volume, repo: Repo, fns: seq<Fn>, visits: seq<Visit>, r: RepoId, c: Commit, id: Id, path: string)
    requires visits <= RepoWalk(repo.commit)
    ensures Lists(vol, r, c, id, path) ==> Lists(ScanTo(vol, repo, fns, visits), r, c, id, path)
    ensures Lists(ScanTo(vol, repo, fns, visits), r, c, id, path) ==>
              Lists(vol, r, c, id, path) || (r == repo.id && c == repo.commit && (id, path) in SelectedPairs(fns, c))
  {
    hide ScanTo, Selected, RepoWalk, Has;
    var vol' := ScanTo(vol, repo, fns, visits);
    if Lists(vol, r, c, id, path) {
      var rp :| Has(vol, id, rp) && rp.repoId == r && rp.commit == c && rp.path == path;
      ScanToAdds(vol, repo, fns, visits, id, rp);
    }
    if Lists(vol', r, c, id, path) {
      var rp :| Has(vol', id, rp) && rp.repoId == r && rp.commit == c && rp.path == path;
      ScanToAdds(vol, repo, fns, visits, id, rp);
      if !Has(vol, id, rp) {
        var v :| v in visits && Selected(fns, v) && v.id == id && rp == MakeRefpath(repo, v.path);
        assert v in RepoWalk(repo.commit);
      }
    }
  }

  lemma CompleteLists(vol: Volume, repo: Repo, fns: seq<Fn>, r: RepoId, c: Commit, id: Id, path: string)
    ensures Lists(CompleteScan(vol, repo, fns), r, c, id, path) <==>
            if r != repo.id then Lists(vol, r, c, id, path)
            else c == repo.commit && (Lists(vol, r, c, id, path) || (id, path) in SelectedPairs(fns, c))
  {
    hide CompleteScan, Has, SelectedPairs;
    var vol' := CompleteScan(vol, repo, fns);
    if Lists(vol, r, c, id, path) {
      var rp :| Has(vol, id, rp) && rp.repoId == r && rp.commit == c && rp.path == path;
      CompleteScanHas(vol, repo, fns, id, rp);
    }
    if Lists(vol', r, c, id, path) {
      var rp :| Has(vol', id, rp) && rp.repoId == r && rp.commit == c && rp.path == path;
      CompleteScanHas(vol, repo, fns, id, rp);
    }
    if r == repo.id && c == repo.commit && (id, path) in SelectedPairs(fns, c) {
      CompleteScanHas(vol, repo, fns, id, MakeRefpath(repo, path));
      assert Has(vol', id, MakeRefpath(repo, path));
    }
  }

  lemma DeleteLists(vol: Volume, r0: RepoId, r: RepoId, c: Commit, id: Id, path: string)
    ensures Lists(RemoveEmpty(PullRepo(vol, r0)), r, c, id, path) <==> r != r0 && Lists(vol, r, c, id, path)
  {
    var vol' := RemoveEmpty(PullRepo(vol, r0));
    if r != r0 && Lists(vol, r, c, id, path) {
      var rp :| Has(vol, id, rp) && rp.repoId == r && rp.commit == c && rp.path == path;
      assert Has(vol', id, rp);
    }
    if Lists(vol', r, c, id, path) {
      var rp :| Has(vol', id, rp) && rp.repoId == r && rp.commit == c && rp.path == path;
      assert Has(vol, id, rp);
    }
  }

  lemma StepKeepsInv(pipe: RepoId -> seq<Fn>, s: State, ev: Event)
    requires Inv(pipe, s)
    ensures Inv(pipe, Step(pipe, s, ev))
  {
    hide SelectedPairs, CompleteScan, ScanTo, Lists, RepoWalk, RemoveEmpty, PullRepo;
    var s' := Step(pipe, s, ev);
    forall r, c, id, path
      ensures Lists(s'.vol, r, c, id, path) ==> (id, path) in SelectedPairs(pipe(r), c)
      ensures (r, c) in s'.markers && (id, path) in SelectedPairs(pipe(r), c) ==> Lists(s'.vol, r, c, id, path)
    {
      assert OnlySelected(s.vol, r, c, pipe(r));
      match ev
      case Abort(repo, n) =>
        var walk := RepoWalk(repo.commit);
        AbortLists(s.vol, repo, pipe(repo.id), if n < |walk| then walk[..n] else walk, r, c, id, path);
      case Complete(repo) => CompleteLists(s.vol, repo, pipe(repo.id), r, c, id, path);
      case Delete(r0) => DeleteLists(s.vol, r0, r, c, id, path);
    }
  }

  lemma {:induction false} RunKeepsInv(pipe: RepoId -> seq<Fn>, evs: seq<Event>)
    ensures Inv(pipe, Run(pipe, evs))
  {
    if evs != [] {
      RunKeepsInv(pipe, evs[..|evs| - 1]);
      StepKeepsInv(pipe, Run(pipe, evs[..|evs| - 1]), evs[|evs| - 1]);
    }
  }

  /** After any history of aborted and completed scans and deletions, a scan that runs to
      the end leaves for its repo exactly the selected entries. */
  lemma ScanIsExactAfterAnyHistory(pipe: RepoId -> seq<Fn>, evs: seq<Event>, repo: Repo)
    requires !UpToDate(Run(pipe, evs), repo)
    ensures var s := Step(pipe, Run(pipe, evs), Complete(repo));
            Exact(s.vol, repo.id, repo.commit, pipe(repo.id)) && UpToDate(s, repo)
  {
    RunKeepsInv(pipe, evs);
    CompletedScanSelects(Run(pipe, evs).vol, repo, pipe(repo.id));
  }

  // What remains of earlier scans.

  /** How far a scan that aborts after `n` callbacks gets. */
  function Visited(commit: Commit, n: nat): seq<Visit> {
    var walk := RepoWalk(commit);
    if n < |walk| then walk[..n] else walk
  }

  /** Among the visits is the entry `id` at `path`, and it is selected. */
  ghost predicate Touches(visits: seq<Visit>, fns: seq<Fn>, id: Id, path: string) {
    exists v :: v in visits && Selected(fns, v) && v.id == id && v.path == path
  }

  /** The history leaves repo `r` at commit `c` with entry `id` at `path`. */
  ghost predicate Remains(pipe: RepoId -> seq<Fn>, evs: seq<Event>, r: RepoId, c: Commit, id: Id, path: string) {
    evs != [] &&
    var before, ev := evs[..|evs| - 1], evs[|evs| - 1];
    match ev
    case Abort(repo, n) =>
      || Remains(pipe, before, r, c, id, path)
      || (&& repo.id == r && repo.commit == c && !UpToDate(Run(pipe, before), repo)
          && Touches(Visited(c, n), pipe(r), id, path))
    case Complete(repo) =>
      if repo.id != r || UpToDate(Run(pipe, before), repo) then Remains(pipe, before, r, c, id, path)
      else repo.commit == c && (Remains(pipe, before, r, c, id, path) || (id, path) in SelectedPairs(pipe(r), c))
    case Delete(r0) => r0 != r && Remains(pipe, before, r, c, id, path)
  }

  lemma AbortListsExactly(vol: Volume, repo: Repo, fns: seq<Fn>, visits: seq<Visit>, r: RepoId, c: Commit, id: Id, path: string)
    ensures Lists(ScanTo(vol, repo, fns, visits), r, c, id, path) <==>
            Lists(vol, r, c, id, path) || (r == repo.id && c == repo.commit && Touches(visits, fns, id, path))
  {
    hide ScanTo, Selected, Has;
    var vol' := ScanTo(vol, repo, fns, visits);
    if Lists(vol, r, c, id, path) {
      var rp :| Has(vol, id, rp) && rp.repoId == r && rp.commit == c && rp.path == path;
      ScanToAdds(vol, repo, fns, visits, id, rp);
    }
    if Lists(vol', r, c, id, path) {
      var rp :| Has(vol', id, rp) && rp.repoId == r && rp.commit == c && rp.path == path;
      ScanToAdds(vol, repo, fns, visits, id, rp);
    }
    if r == repo.id && c == repo.commit && Touches(visits, fns, id, path) {
      ScanToAdds(vol, repo, fns, visits, id, MakeRefpath(repo, path));
      assert Has(vol', id, MakeRefpath(repo, path));
    }
  }

  /** What the volume lists is what the history leaves. */
  lemma {:induction false} ListsWhatRemains(
    pipe: RepoId -> seq<Fn>, evs: seq<Event>, r: RepoId, c: Commit, id: Id, path: string)
    ensures Lists(Run(pipe, evs).vol, r, c, id, path) <==> Remains(pipe, evs, r, c, id, path)
  {
    if evs == [] {
      assert forall rp :: !Has(map[], id, rp);
    } else {
      hide SelectedPairs, CompleteScan, ScanTo, Lists, RepoWalk, RemoveEmpty, PullRepo, Touches;
      var before, ev := evs[..|evs| - 1], evs[|evs| - 1];
      ListsWhatRemains(pipe, before, r, c, id, path);
      var s := Run(pipe, before);
      match ev
      case Abort(repo, n) => AbortListsExactly(s.vol, repo, pipe(repo.id), Visited(repo.commit, n), r, c, id, path);
      case Complete(repo) => CompleteLists(s.vol, repo, pipe(repo.id), r, c, id, path);
      case Delete(r0) => DeleteLists(s.vol, r0, r, c, id, path);
    }
  }

  // Skipping a repo that is marked up-to-date.

  /** The event at `i` is a scan of `r` that is not skipped and runs to the end, or the
      cleanup of `r`. */
  ghost predicate Cleans(pipe: RepoId -> seq<Fn>, evs: seq<Event>, i: nat, r: RepoId)
    requires i < |evs|
  {
    match evs[i]
    case Abort(_, _) => false
    case Complete(repo) => repo.id == r && !UpToDate(Run(pipe, evs[..i]), repo)
    case Delete(r0) => r0 == r
  }

  /** The event at `i` is a scan of `r` at commit `c` that is not skipped and aborts after it
      has visited the selected entry `id` at `path`. */
  ghost predicate Strays(pipe: RepoId -> seq<Fn>, evs: seq<Event>, i: nat, r: RepoId, c: Commit, id: Id, path: string)
    requires i < |evs|
  {
    && evs[i].Abort? && evs[i].repo.id == r && evs[i].repo.commit == c
    && !UpToDate(Run(pipe, evs[..i]), evs[i].repo)
    && Touches(Visited(c, evs[i].n), pipe(r), id, path)
  }

  /** An aborted scan left the entry, and nothing cleaned up after it. */
  ghost predicate LeftBehind(pipe: RepoId -> seq<Fn>, evs: seq<Event>, r: RepoId, c: Commit, id: Id, path: string) {
    exists i :: 0 <= i < |evs| && Strays(pipe, evs, i, r, c, id, path) &&
      forall j :: i < j < |evs| ==> !Cleans(pipe, evs, j, r)
  }

  /** Both depend on the events up to `i` alone. */
  lemma SameOfPrefix(
    pipe: RepoId -> seq<Fn>, evs: seq<Event>, n: nat, i: nat, r: RepoId, c: Commit, id: Id, path: string)
    requires i < n <= |evs|
    ensures Strays(pipe, evs[..n], i, r, c, id, path) <==> Strays(pipe, evs, i, r, c, id, path)
    ensures Cleans(pipe, evs[..n], i, r) <==> Cleans(pipe, evs, i, r)
  {
    hide Touches, Run, UpToDate;
    assert evs[..n][..i] == evs[..i];
  }

  lemma LeftBehindOneMore(pipe: RepoId -> seq<Fn>, evs: seq<Event>, r: RepoId, c: Commit, id: Id, path: string)
    requires evs != []
    ensures var n := |evs| - 1;
            LeftBehind(pipe, evs, r, c, id, path) <==>
            Strays(pipe, evs, n, r, c, id, path) ||
            (LeftBehind(pipe, evs[..n], r, c, id, path) && !Cleans(pipe, evs, n, r))
  {
    hide Strays, Cleans;
    var n := |evs| - 1;
    var before := evs[..n];
    if LeftBehind(pipe, evs, r, c, id, path) && !Strays(pipe, evs, n, r, c, id, path) {
      var i :| 0 <= i < |evs| && Strays(pipe, evs, i, r, c, id, path) &&
        forall j :: i < j < |evs| ==> !Cleans(pipe, evs, j, r);
      SameOfPrefix(pipe, evs, n, i, r, c, id, path);
      forall j | i < j < n ensures !Cleans(pipe, before, j, r) {
        SameOfPrefix(pipe, evs, n, j, r, c, id, path);
      }
    }
    if LeftBehind(pipe, before, r, c, id, path) && !Cleans(pipe, evs, n, r) {
      var i :| 0 <= i < |before| && Strays(pipe, before, i, r, c, id, path) &&
        forall j :: i < j < |before| ==> !Cleans(pipe, before, j, r);
      SameOfPrefix(pipe, evs, n, i, r, c, id, path);
      forall j | i < j < |evs| ensures !Cleans(pipe, evs, j, r) {
        if j < n {
          SameOfPrefix(pipe, evs, n, j, r, c, id, path);
        }
      }
    }
  }

  /** Under the marker of another commit, what remains is what aborted scans left behind. */
  lemma {:induction false} RemainsIsLeftBehind(
    pipe: RepoId -> seq<Fn>, evs: seq<Event>, repo: Repo, c: Commit, id: Id, path: string)
    requires UpToDate(Run(pipe, evs), repo) && c != repo.commit
    ensures Remains(pipe, evs, repo.id, c, id, path) <==> LeftBehind(pipe, evs, repo.id, c, id, path)
  {
    hide Touches, SelectedPairs, CompleteScan, ScanTo, LeftBehind;
    if evs != [] {
      var n := |evs| - 1;
      var before := evs[..n];
      LeftBehindOneMore(pipe, evs, repo.id, c, id, path);
      if !Cleans(pipe, evs, n, repo.id) {
        MarkerStays(pipe, evs, repo);
        RemainsIsLeftBehind(pipe, before, repo, c, id, path);
      }
    }
  }

  lemma MarkerStays(pipe: RepoId -> seq<Fn>, evs: seq<Event>, repo: Repo)
    requires evs != [] && UpToDate(Run(pipe, evs), repo) && !Cleans(pipe, evs, |evs| - 1, repo.id)
    ensures UpToDate(Run(pipe, evs[..|evs| - 1]), repo)
  {
    hide CompleteScan, ScanTo, RemoveEmpty, PullRepo;
  }

  /** The volume lists the repo at its commit, exactly, and at no other commit. */
  ghost predicate Current(s: State, repo: Repo, fns: seq<Fn>) {
    && (forall id, path :: Lists(s.vol, repo.id, repo.commit, id, path) <==> (id, path) in SelectedPairs(fns, repo.commit))
    && (forall c, id, path :: Lists(s.vol, repo.id, c, id, path) ==> c == repo.commit)
  }

  /** Under a marker the commit itself is listed exactly. */
  lemma MarkedCommitIsExact(pipe: RepoId -> seq<Fn>, evs: seq<Event>, repo: Repo, id: Id, path: string)
    requires UpToDate(Run(pipe, evs), repo)
    ensures Lists(Run(pipe, evs).vol, repo.id, repo.commit, id, path) <==>
            (id, path) in SelectedPairs(pipe(repo.id), repo.commit)
  {
    hide Run, Lists, SelectedPairs;
    RunKeepsInv(pipe, evs);
    assert OnlySelected(Run(pipe, evs).vol, repo.id, repo.commit, pipe(repo.id));
  }

  /** An update that finds the marker skips the repo.  The volume is then current if and only
      if no aborted scan of the repo at another commit has visited a selected entry after the
      last completed scan. */
  lemma SkipIsRightExactlyWithoutStrays(pipe: RepoId -> seq<Fn>, evs: seq<Event>, repo: Repo)
    requires UpToDate(Run(pipe, evs), repo)
    ensures Current(Run(pipe, evs), repo, pipe(repo.id)) <==>
            forall c, id, path :: LeftBehind(pipe, evs, repo.id, c, id, path) ==> c == repo.commit
  {
    hide Run, Lists, SelectedPairs, LeftBehind, Remains, UpToDate;
    var s := Run(pipe, evs);
    forall id, path
      ensures Lists(s.vol, repo.id, repo.commit, id, path) <==> (id, path) in SelectedPairs(pipe(repo.id), repo.commit)
    {
      MarkedCommitIsExact(pipe, evs, repo, id, path);
    }
    forall c, id, path | c != repo.commit
      ensures Lists(s.vol, repo.id, c, id, path) <==> LeftBehind(pipe, evs, repo.id, c, id, path)
    {
      ListsWhatRemains(pipe, evs, repo.id, c, id, path);
      RemainsIsLeftBehind(pipe, evs, repo, c, id, path);
    }
  }

  /** The pairs of entry and path that a skipped repo is listed with are the right ones if and
      only if every pair that such a scan visited is also selected at the current commit. */
  lemma SkipListsRightPairsExactly(pipe: RepoId -> seq<Fn>, evs: seq<Event>, repo: Repo)
    requires UpToDate(Run(pipe, evs), repo)
    ensures Exact(Run(pipe, evs).vol, repo.id, repo.commit, pipe(repo.id)) <==>
            forall c, id, path :: LeftBehind(pipe, evs, repo.id, c, id, path) && c != repo.commit ==>
              (id, path) in SelectedPairs(pipe(repo.id), repo.commit)
  {
    hide Run, Lists, ListsPair, SelectedPairs, LeftBehind, Remains, UpToDate;
    var s := Run(pipe, evs);
    forall c, id, path | c != repo.commit
      ensures Lists(s.vol, repo.id, c, id, path) <==> LeftBehind(pipe, evs, repo.id, c, id, path)
    {
      ListsWhatRemains(pipe, evs, repo.id, c, id, path);
      RemainsIsLeftBehind(pipe, evs, repo, c, id, path);
    }
    forall id, path
      ensures ListsPair(s.vol, repo.id, id, path) <==>
              (id, path) in SelectedPairs(pipe(repo.id), repo.commit) ||
              exists c :: c != repo.commit && LeftBehind(pipe, evs, repo.id, c, id, path)
    {
      MarkedCommitIsExact(pipe, evs, repo, id, path);
      PairIsListedAtSomeCommit(s.vol, repo.id, id, path);
      if c :| c != repo.commit && LeftBehind(pipe, evs, repo.id, c, id, path) {
        assert Lists(s.vol, repo.id, c, id, path);
      }
    }
  }

  lemma PairIsListedAtSomeCommit(vol: Volume, r: RepoId, id: Id, path: string)
    ensures ListsPair(vol, r, id, path) <==> exists c :: Lists(vol, r, c, id, path)
  {
    hide Has;
    if ListsPair(vol, r, id, path) {
      var rp :| Has(vol, id, rp) && rp.repoId == r && rp.path == path;
      assert Lists(vol, r, rp.commit, id, path);
    }
  }

  /** A repo is scanned at `repo.commit`; a scan at `other` aborts after it has added a
      selected entry; the ref moves back.  The marker still says up-to-date. */
  lemma AbortedScanLeavesStaleMarker(pipe: RepoId -> seq<Fn>, evs: seq<Event>, repo: Repo, other: Commit, n: nat)
    requires UpToDate(Run(pipe, evs), repo) && other != repo.commit
    requires n < |RepoWalk(other)| && Selected(pipe(repo.id), RepoWalk(other)[n])
    ensures var s := Run(pipe, evs + [Abort(repo.(commit := other), n + 1)]);
            UpToDate(s, repo) && !Current(s, repo, pipe(repo.id))
  {
    var r1, v := repo.(commit := other), RepoWalk(other)[n];
    var more := evs + [Abort(r1, n + 1)];
    assert more[..|evs|] == evs;
    RunKeepsInv(pipe, evs);
    assert !UpToDate(Run(pipe, evs), r1);
    assert v in Visited(other, n + 1) by { assert Visited(other, n + 1)[n] == v; }
    assert Strays(pipe, more, |evs|, repo.id, other, v.id, v.path);
    hide Strays, SelectedPairs, ScanTo, RepoWalk, Visited, Inv;
    assert LeftBehind(pipe, more, repo.id, other, v.id, v.path);
    SkipIsRightExactlyWithoutStrays(pipe, more, repo);
  }

  // The scan as the source runs it.

  lemma {:induction false} ScanToAppend(vol: Volume, repo: Repo, fns: seq<Fn>, a: seq<Visit>, b: seq<Visit>)
    ensures ScanTo(ScanTo(vol, repo, fns, a), repo, fns, b) == ScanTo(vol, repo, fns, a + b)
  {
    if b == [] {
      assert a + b == a;
    } else {
      var n := |b| - 1;
      ScanToAppend(vol, repo, fns, a, b[..n]);
      assert (a + b)[..|a + b| - 1] == a + b[..n];
    }
  }

  lemma ScanNothing(vol: Volume, repo: Repo, fns: seq<Fn>)
    ensures ScanTo(vol, repo, fns, []) == vol
  {
  }

  class Scanner {
    const objects: set<Id>
    const trees: set<Id>
    const repo: Repo
    const fns: seq<Fn>
    var vol: Volume
    /** How many more renewals of the lock will succeed. */
    var renewals: nat

    constructor (objects: set<Id>, trees: set<Id>, repo: Repo, fns: seq<Fn>, vol: Volume, renewals: nat)
      ensures this.objects == objects && this.trees == trees && this.repo == repo && this.fns == fns
      ensures this.vol == vol && this.renewals == renewals
    {
      this.objects, this.trees, this.repo, this.fns := objects, trees, repo, fns;
      this.vol, this.renewals := vol, renewals;
    }

    predicate Present(v: Visit) {
      (v.kind.ObjectKind? && v.id in objects) || (v.kind.TreeKind? && v.id in trees)
    }

    method Select(id: Id, path: string) returns (ok: bool)
      ensures ok == Passes(fns, id, path, Attrs(id.name, id.meta))
    {
      var a := Attrs(id.name, id.meta);
      for i := 0 to |fns|
        invariant Passes(fns, id, path, Attrs(id.name, id.meta)) == Passes(fns[i..], id, path, a)
      {
        var r := fns[i](id, path, a);
        if r.None? {
          return false;
        }
        a := r.value;
        assert fns[i..][1..] == fns[i + 1..];
      }
      return true;
    }

    /** The callback of the walk. */
    method OnEntry(kind: Kind, id: Id, path: string)
      modifies this`vol
      ensures vol == ScanTo(old(vol), repo, fns, [Visit(kind, id, path)])
    {
      ghost var v := Visit(kind, id, path);
      assert [v][..0] == [];
      var selected := Select(id, path);
      if selected {
        vol := AddRefpath(vol, id, MakeRefpath(repo, path));
      }
    }

    /** What a walk over `walk` may have done when it returns after `n` callbacks.  It fails
        exactly if it cannot visit everything: the lock is lost or content is missing. */
    twostate predicate Walked(walk: seq<Visit>, ok: bool, n: nat)
      reads this
    {
      && n <= |walk| && n <= old(renewals) && renewals == old(renewals) - n
      && vol == ScanTo(old(vol), repo, fns, walk[..n])
      && (ok <==> n == |walk|)
      && (forall i :: 0 <= i < n ==> Present(walk[i]))
      && (!ok ==> renewals == 0 || !Present(walk[n]))
    }

    method Walk(entry: Ref, parent: Option<string>) returns (ok: bool, ghost n: nat)
      modifies this
      ensures Walked(FullWalk(entry, parent), ok, n)
      decreases entry
    {
      hide Callback, ScanTo, WalkAll;
      ghost var walk := FullWalk(entry, parent);
      var path := Path(entry.id, parent);
      ghost var v := Visit(entry.kind, entry.id, path);
      if !Present(Visit(entry.kind, entry.id, path)) || renewals == 0 {
        assert walk[..0] == [];
        ScanNothing(vol, repo, fns);
        return false, 0;
      }
      renewals := renewals - 1;
      OnEntry(entry.kind, entry.id, path);
      assert walk[..1] == [v];
      if entry.id.ObjectId? {
        return true, 1;
      }
      ok, n := WalkEntries(entry.id.entries, path);
      ghost var below := WalkAll(entry.id.entries, path);
      ScanToAppend(old(vol), repo, fns, [v], below[..n]);
      assert walk[..n + 1] == [v] + below[..n];
      n := n + 1;
    }

    method WalkEntries(entries: seq<Ref>, path: string) returns (ok: bool, ghost n: nat)
      modifies this
      ensures Walked(WalkAll(entries, path), ok, n)
      decreases entries
    {
      hide Callback, ScanTo, FullWalk;
      ScanNothing(vol, repo, fns);
      n := 0;
      for i := 0 to |entries|
        invariant n == |WalkAll(entries[..i], path)| && n <= old(renewals) && renewals == old(renewals) - n
        invariant vol == ScanTo(old(vol), repo, fns, WalkAll(entries[..i], path))
        invariant forall v | v in WalkAll(entries[..i], path) :: Present(v)
      {
        ghost var before, sub := WalkAll(entries[..i], path), FullWalk(entries[i], Some(path));
        assert entries[..i + 1][..i] == entries[..i];
        WalkAllPrefix(entries, i + 1, path);
        var ok1, n1 := Walk(entries[i], Some(path));
        ScanToAppend(old(vol), repo, fns, before, sub[..n1]);
        n := n + n1;
        if !ok1 {
          assert WalkAll(entries, path)[..n] == before + sub[..n1];
          return false, n;
        }
        assert sub[..n1] == sub;
      }
      assert entries[..|entries|] == entries;
      assert WalkAll(entries, path)[..n] == WalkAll(entries, path);
      return true, n;
    }

    /** `addContentRepoSudo()` and the cleanup after it. */
    method ScanRepo() returns (ok: bool, ghost n: nat)
      modifies this
      ensures ok ==> vol == CompleteScan(old(vol), repo, fns)
      ensures ok ==> forall v | v in RepoWalk(repo.commit) :: Present(v)
      ensures !ok ==> n < |RepoWalk(repo.commit)| && vol == ScanTo(old(vol), repo, fns, RepoWalk(repo.commit)[..n])
    {
      ok, n := Walk(Ref(TreeKind, repo.commit.tree), None);
      if !ok {
        return;
      }
      assert RepoWalk(repo.commit)[..n] == RepoWalk(repo.commit);
      vol := PullOtherCommits(vol, repo);
      vol := RemoveEmpty(vol);
    }
  }

  lemma {:induction false} WalkAllPrefix(entries: seq<Ref>, i: nat, path: string)
    requires i <= |entries|
    ensures WalkAll(entries[..i], path) <= WalkAll(entries, path)
  {
    if i == |entries| {
      assert entries[..i] == entries;
    } else {
      WalkAllPrefix(entries[..|entries| - 1], i, path);
      assert entries[..|entries| - 1][..i] == entries[..i];
    }
  }
}
