/** The connectivity check of the content database: every stored document must refer only
    to stored documents, except for blobs that are null or known to be lost. */
module Dbck {
  import opened Wrappers

  const NULL_SHA1 := "0000000000000000000000000000000000000000"
  const KNOWN_ERRATA := ["ERA201507a", "ERA201609a", "ERA201609b"]

  datatype Ref = Ref(name: string, commit: Option<string>)
  datatype Repo = Repo(owner: string, name: string, refs: seq<Ref>)
  datatype Commit = Commit(id: string, tree: string, parents: seq<string>)
  datatype TreeEntry = TreeEntry(kind: string, sha1: string)
  datatype Tree = Tree(id: string, entries: seq<TreeEntry>)
  datatype Object = Object(id: string, blob: Option<string>, errata: Option<seq<string>>)

  /** The content collections; a scan visits the documents in this order. */
  datatype Store = Store(
    repos: seq<Repo>, commits: seq<Commit>, trees: seq<Tree>, objects: seq<Object>, blobs: seq<string>)

  predicate HaveCommit(s: Store, sha: string) { exists c :: c in s.commits && c.id == sha }
  predicate HaveTree(s: Store, sha: string) { exists t :: t in s.trees && t.id == sha }
  predicate HaveObject(s: Store, sha: string) { exists o :: o in s.objects && o.id == sha }
  predicate HaveBlob(s: Store, sha: string) { sha in s.blobs }

  /** A document as a scan finds it. */
  datatype Doc = RepoDoc(repo: Repo) | CommitDoc(commit: Commit) | TreeDoc(tree: Tree) | ObjectDoc(obj: Object)

  /** What a document can refer to. */
  datatype Node = CommitNode(sha: string) | TreeNode(sha: string) | ObjectNode(sha: string) | BlobNode(sha: string)

  predicate Present(s: Store, n: Node) {
    match n
    case CommitNode(sha) => HaveCommit(s, sha)
    case TreeNode(sha) => HaveTree(s, sha)
    case ObjectNode(sha) => HaveObject(s, sha)
    case BlobNode(sha) => HaveBlob(s, sha)
  }

  predicate Refers(d: Doc, n: Node) {
    match d
    case RepoDoc(r) => n.CommitNode? && exists f :: f in r.refs && f.commit == Some(n.sha)
    case CommitDoc(c) => n == TreeNode(c.tree) || (n.CommitNode? && n.sha in c.parents)
    case TreeDoc(t) =>
      || (n.TreeNode? && TreeEntry("tree", n.sha) in t.entries)
      || (n.ObjectNode? && TreeEntry("object", n.sha) in t.entries)
    case ObjectDoc(o) => n.BlobNode? && o.blob == Some(n.sha)
  }

  predicate HasKnownErratum(o: Object) {
    o.errata.Some? && exists e :: e in o.errata.value && e in KNOWN_ERRATA
  }

  /** The blob of the object may be missing. */
  predicate Exempt(d: Doc) {
    d.ObjectDoc? && (d.obj.blob == Some(NULL_SHA1) || HasKnownErratum(d.obj))
  }

  datatype Problem =
    | InvalidCommit(doc: Doc, ref: string)
    | InvalidEntryType(doc: Doc, kind: string)
    | Missing(doc: Doc, node: Node)

  /** The problem exists in the store. */
  predicate Truthful(s: Store, e: Problem) {
    match e
    case InvalidCommit(d, ref) => d.RepoDoc? && Ref(ref, Some(NULL_SHA1)) in d.repo.refs
    case InvalidEntryType(d, kind) =>
      d.TreeDoc? && kind != "tree" && kind != "object" && exists t :: t in d.tree.entries && t.kind == kind
    case Missing(d, n) => Refers(d, n) && !Exempt(d) && !Present(s, n)
  }

  ghost predicate Good(s: Store, d: Doc) {
    forall e: Problem :: e.doc == d ==> !Truthful(s, e)
  }

  // The check of one document stops at its first problem.

  method CheckRepo(s: Store, r: Repo) returns (err: Option<Problem>)
    ensures err.None? ==> Good(s, RepoDoc(r))
    ensures err.Some? ==> err.value.doc == RepoDoc(r) && Truthful(s, err.value)
  {
    for i := 0 to |r.refs|
      invariant forall k :: 0 <= k < i && r.refs[k].commit.Some? ==>
        r.refs[k].commit.value != NULL_SHA1 && HaveCommit(s, r.refs[k].commit.value)
    {
      var f := r.refs[i];
      if f.commit.None? {
        continue;
      }
      if f.commit.value == NULL_SHA1 {
        return Some(InvalidCommit(RepoDoc(r), f.name));
      }
      if HaveCommit(s, f.commit.value) {
        continue;
      }
      return Some(Missing(RepoDoc(r), CommitNode(f.commit.value)));
    }
    return None;
  }

  method CheckCommit(s: Store, c: Commit) returns (err: Option<Problem>)
    ensures err.None? ==> Good(s, CommitDoc(c))
    ensures err.Some? ==> err.value.doc == CommitDoc(c) && Truthful(s, err.value)
  {
    for i := 0 to |c.parents|
      invariant forall k :: 0 <= k < i ==> HaveCommit(s, c.parents[k])
    {
      if !HaveCommit(s, c.parents[i]) {
        return Some(Missing(CommitDoc(c), CommitNode(c.parents[i])));
      }
    }
    if !HaveTree(s, c.tree) {
      return Some(Missing(CommitDoc(c), TreeNode(c.tree)));
    }
    return None;
  }

  method CheckTree(s: Store, t: Tree) returns (err: Option<Problem>)
    ensures err.None? ==> Good(s, TreeDoc(t))
    ensures err.Some? ==> err.value.doc == TreeDoc(t) && Truthful(s, err.value)
  {
    for i := 0 to |t.entries|
      invariant forall k :: 0 <= k < i ==>
        || (t.entries[k].kind == "tree" && HaveTree(s, t.entries[k].sha1))
        || (t.entries[k].kind == "object" && HaveObject(s, t.entries[k].sha1))
    {
      var e := t.entries[i];
      if e.kind == "tree" {
        if !HaveTree(s, e.sha1) {
          assert e == TreeEntry("tree", e.sha1);
          return Some(Missing(TreeDoc(t), TreeNode(e.sha1)));
        }
      } else if e.kind == "object" {
        if !HaveObject(s, e.sha1) {
          assert e == TreeEntry("object", e.sha1);
          return Some(Missing(TreeDoc(t), ObjectNode(e.sha1)));
        }
      } else {
        return Some(InvalidEntryType(TreeDoc(t), e.kind));
      }
    }
    return None;
  }

  method HasOneOfErrata(o: Object) returns (r: bool)
    ensures r == HasKnownErratum(o)
  {
    if o.errata.None? {
      return false;
    }
    for i := 0 to |o.errata.value|
      invariant forall k :: 0 <= k < i ==> o.errata.value[k] !in KNOWN_ERRATA
    {
      if o.errata.value[i] in KNOWN_ERRATA {
        return true;
      }
    }
    return false;
  }

  method CheckObject(s: Store, o: Object) returns (err: Option<Problem>)
    ensures err.None? ==> Good(s, ObjectDoc(o))
    ensures err.Some? ==> err.value.doc == ObjectDoc(o) && Truthful(s, err.value)
  {
    var known := HasOneOfErrata(o);
    if known {
      return None;
    }
    if o.blob.None? {
      return None;
    }
    if o.blob.value == NULL_SHA1 {
      return None;
    }
    if HaveBlob(s, o.blob.value) {
      return None;
    }
    return Some(Missing(ObjectDoc(o), BlobNode(o.blob.value)));
  }

  // The four scans.

  function RepoDocs(rs: seq<Repo>): seq<Doc> { seq(|rs|, i requires 0 <= i < |rs| => RepoDoc(rs[i])) }
  function CommitDocs(cs: seq<Commit>): seq<Doc> { seq(|cs|, i requires 0 <= i < |cs| => CommitDoc(cs[i])) }
  function TreeDocs(ts: seq<Tree>): seq<Doc> { seq(|ts|, i requires 0 <= i < |ts| => TreeDoc(ts[i])) }
  function ObjectDocs(os: seq<Object>): seq<Doc> { seq(|os|, i requires 0 <= i < |os| => ObjectDoc(os[i])) }

  function AllDocs(s: Store): seq<Doc> {
    RepoDocs(s.repos) + CommitDocs(s.commits) + TreeDocs(s.trees) + ObjectDocs(s.objects)
  }

  /** The documents that are not good, in order. */
  ghost function Bad(s: Store, docs: seq<Doc>): seq<Doc> {
    if docs == [] then []
    else
      var d := docs[|docs| - 1];
      Bad(s, docs[..|docs| - 1]) + if Good(s, d) then [] else [d]
  }

  /** The errors report each bad document among `docs` once, in order, and are true. */
  ghost predicate Reports(s: Store, errors: seq<Problem>, docs: seq<Doc>) {
    && seq(|errors|, i requires 0 <= i < |errors| => errors[i].doc) == Bad(s, docs)
    && forall e :: e in errors ==> Truthful(s, e)
  }

  lemma ReportNext(s: Store, errors: seq<Problem>, docs: seq<Doc>, err: Option<Problem>, d: Doc)
    requires Reports(s, errors, docs)
    requires err.None? ==> Good(s, d)
    requires err.Some? ==> err.value.doc == d && Truthful(s, err.value)
    ensures Reports(s, Push(errors, err), docs + [d])
  {
    hide Truthful;
    assert (docs + [d])[..|docs|] == docs;
  }

  function Push(errors: seq<Problem>, err: Option<Problem>): seq<Problem> {
    if err.Some? then errors + [err.value] else errors
  }

  lemma NothingToReport(s: Store)
    ensures Reports(s, [], [])
  {
  }

  /** Every bad document is reported exactly once. */
  method VerifyConnectivity(s: Store) returns (ok: bool, errors: seq<Problem>)
    ensures Reports(s, errors, AllDocs(s))
    ensures ok <==> errors == []
  {
    hide Reports, Good, Truthful;
    errors := [];
    NothingToReport(s);
    ghost var done: seq<Doc> := [];
    assert done + RepoDocs(s.repos[..0]) == done;
    for i := 0 to |s.repos|
      invariant Reports(s, errors, done + RepoDocs(s.repos[..i]))
    {
      var err := CheckRepo(s, s.repos[i]);
      ReportNext(s, errors, done + RepoDocs(s.repos[..i]), err, RepoDoc(s.repos[i]));
      assert done + RepoDocs(s.repos[..i]) + [RepoDoc(s.repos[i])] == done + RepoDocs(s.repos[..i + 1]);
      errors := Push(errors, err);
    }
    assert s.repos[..|s.repos|] == s.repos;
    done := done + RepoDocs(s.repos);
    assert done + CommitDocs(s.commits[..0]) == done;
    for i := 0 to |s.commits|
      invariant Reports(s, errors, done + CommitDocs(s.commits[..i]))
    {
      var err := CheckCommit(s, s.commits[i]);
      ReportNext(s, errors, done + CommitDocs(s.commits[..i]), err, CommitDoc(s.commits[i]));
      assert done + CommitDocs(s.commits[..i]) + [CommitDoc(s.commits[i])] == done + CommitDocs(s.commits[..i + 1]);
      errors := Push(errors, err);
    }
    assert s.commits[..|s.commits|] == s.commits;
    done := done + CommitDocs(s.commits);
    assert done + TreeDocs(s.trees[..0]) == done;
    for i := 0 to |s.trees|
      invariant Reports(s, errors, done + TreeDocs(s.trees[..i]))
    {
      var err := CheckTree(s, s.trees[i]);
      ReportNext(s, errors, done + TreeDocs(s.trees[..i]), err, TreeDoc(s.trees[i]));
      assert done + TreeDocs(s.trees[..i]) + [TreeDoc(s.trees[i])] == done + TreeDocs(s.trees[..i + 1]);
      errors := Push(errors, err);
    }
    assert s.trees[..|s.trees|] == s.trees;
    done := done + TreeDocs(s.trees);
    assert done + ObjectDocs(s.objects[..0]) == done;
    for i := 0 to |s.objects|
      invariant Reports(s, errors, done + ObjectDocs(s.objects[..i]))
    {
      var err := CheckObject(s, s.objects[i]);
      ReportNext(s, errors, done + ObjectDocs(s.objects[..i]), err, ObjectDoc(s.objects[i]));
      assert done + ObjectDocs(s.objects[..i]) + [ObjectDoc(s.objects[i])] == done + ObjectDocs(s.objects[..i + 1]);
      errors := Push(errors, err);
    }
    assert s.objects[..|s.objects|] == s.objects;
    done := done + ObjectDocs(s.objects);
    assert done == AllDocs(s);
    ok := errors == [];
  }

  lemma {:induction false} BadIsExact(s: Store, docs: seq<Doc>, d: Doc)
    ensures d in Bad(s, docs) <==> d in docs && !Good(s, d)
  {
    if docs != [] {
      hide Good;
      var rest := docs[..|docs| - 1];
      BadIsExact(s, rest, d);
      assert docs == rest + [docs[|docs| - 1]];
    }
  }

  predicate Stored(s: Store, d: Doc) {
    match d
    case RepoDoc(r) => r in s.repos
    case CommitDoc(c) => c in s.commits
    case TreeDoc(t) => t in s.trees
    case ObjectDoc(o) => o in s.objects
  }

  lemma StoredIsScanned(s: Store, d: Doc)
    ensures Stored(s, d) <==> d in AllDocs(s)
  {
    if Stored(s, d) {
      match d
      case RepoDoc(r) =>
        var i :| 0 <= i < |s.repos| && s.repos[i] == r;
        assert RepoDocs(s.repos)[i] == d;
      case CommitDoc(c) =>
        var i :| 0 <= i < |s.commits| && s.commits[i] == c;
        assert CommitDocs(s.commits)[i] == d;
      case TreeDoc(t) =>
        var i :| 0 <= i < |s.trees| && s.trees[i] == t;
        assert TreeDocs(s.trees)[i] == d;
      case ObjectDoc(o) =>
        var i :| 0 <= i < |s.objects| && s.objects[i] == o;
        assert ObjectDocs(s.objects)[i] == d;
    }
  }

  /** A missing direct reference is reported, under the document that refers to it. */
  lemma MissingIsReported(s: Store, errors: seq<Problem>, d: Doc, n: Node)
    requires Reports(s, errors, AllDocs(s))
    requires Stored(s, d) && Refers(d, n) && !Exempt(d) && !Present(s, n)
    ensures exists e :: e in errors && e.doc == d && Truthful(s, e)
  {
    hide Stored, Refers, Exempt, Present, AllDocs;
    StoredIsScanned(s, d);
    assert Truthful(s, Missing(d, n));
    BadIsExact(s, AllDocs(s), d);
    var docs := seq(|errors|, i requires 0 <= i < |errors| => errors[i].doc);
    var i :| 0 <= i < |docs| && docs[i] == d;
    assert errors[i] in errors;
  }

  // Chains of references of any length.

  /** The document that holds the references of a node. */
  predicate Holds(d: Doc, n: Node) {
    match d
    case RepoDoc(_) => false
    case CommitDoc(c) => n == CommitNode(c.id)
    case TreeDoc(t) => n == TreeNode(t.id)
    case ObjectDoc(o) => n == ObjectNode(o.id)
  }

  /** `refs` says what every node refers to, stored or not: ids are content hashes.  The
      stored documents agree with it, and blobs refer to nothing. */
  ghost predicate Agrees(s: Store, refs: Node -> set<Node>) {
    && (forall d, n, m | Stored(s, d) && Holds(d, n) :: Refers(d, m) <==> m in refs(n))
    && (forall b :: refs(BlobNode(b)) == {})
  }

  /** A path of references of any length that starts at a ref of a stored repo.  Nothing on
      it needs to be stored. */
  ghost predicate Path(s: Store, refs: Node -> set<Node>, nodes: seq<Node>) {
    && nodes != [] && (exists r :: r in s.repos && Refers(RepoDoc(r), nodes[0]))
    && forall i :: 0 < i < |nodes| ==> nodes[i] in refs(nodes[i - 1])
  }

  /** The node before the blob is an object whose blob may be missing. */
  ghost predicate ExemptAt(s: Store, nodes: seq<Node>, i: nat)
    requires i < |nodes|
  {
    && nodes[i].BlobNode? && i == |nodes| - 1 && i > 0
    && exists d :: Stored(s, d) && Holds(d, nodes[i - 1]) && Exempt(d)
  }

  lemma PresentIsHeld(s: Store, n: Node) returns (d: Doc)
    requires Present(s, n) && !n.BlobNode?
    ensures Stored(s, d) && Holds(d, n)
  {
    match n
    case CommitNode(sha) =>
      var c :| c in s.commits && c.id == sha;
      d := CommitDoc(c);
    case TreeNode(sha) =>
      var t :| t in s.trees && t.id == sha;
      d := TreeDoc(t);
    case ObjectNode(sha) =>
      var o :| o in s.objects && o.id == sha;
      d := ObjectDoc(o);
  }

  /** After a check without errors, a reference of a stored document is present, or it is the
      blob of an exempt object. */
  lemma OkReference(s: Store, d: Doc, m: Node)
    requires Reports(s, [], AllDocs(s)) && Stored(s, d) && Refers(d, m)
    ensures Present(s, m) || (m.BlobNode? && Exempt(d))
  {
    hide Stored, Present, AllDocs;
    if !Present(s, m) && !Exempt(d) {
      hide Refers, Exempt;
      MissingIsReported(s, [], d, m);
      assert false;
    }
  }

  /** After a check without errors, everything that a chain of references of any length
      reaches from any ref is present, except a blob at its end whose object is exempt. */
  lemma {:induction false} OkMeansConnected(s: Store, refs: Node -> set<Node>, nodes: seq<Node>, i: nat)
    requires Reports(s, [], AllDocs(s)) && Agrees(s, refs) && Path(s, refs, nodes) && i < |nodes|
    ensures Present(s, nodes[i]) || ExemptAt(s, nodes, i)
  {
    hide Reports, Present, Exempt, Stored;
    if i == 0 {
      var r :| r in s.repos && Refers(RepoDoc(r), nodes[0]);
      assert Stored(s, RepoDoc(r)) by { RepoIsStored(s, r); }
      OkReference(s, RepoDoc(r), nodes[0]);
    } else {
      OkMeansConnected(s, refs, nodes, i - 1);
      assert nodes[i] in refs(nodes[i - 1]);
      var d := PresentIsHeld(s, nodes[i - 1]);
      OkReference(s, d, nodes[i]);
      BlobEndsPath(s, refs, nodes, i);
    }
  }

  lemma BlobEndsPath(s: Store, refs: Node -> set<Node>, nodes: seq<Node>, i: nat)
    requires Agrees(s, refs) && Path(s, refs, nodes) && i < |nodes|
    ensures nodes[i].BlobNode? ==> i == |nodes| - 1
  {
    hide Refers, Stored, Holds;
    var n := nodes[i];
    assert refs(BlobNode(n.sha)) == {};
    assert i + 1 < |nodes| ==> nodes[i + 1] in refs(n);
  }

  lemma RepoIsStored(s: Store, r: Repo)
    requires r in s.repos
    ensures Stored(s, RepoDoc(r))
  {
  }

  lemma OkDocIsGood(s: Store, d: Doc)
    requires Reports(s, [], AllDocs(s)) && Stored(s, d)
    ensures Good(s, d)
  {
    hide Good, Stored, AllDocs, Truthful;
    StoredIsScanned(s, d);
    BadIsExact(s, AllDocs(s), d);
  }

  // What a sound store is, over the fields of its documents.

  /** Every ref has a commit that is not null and is stored. */
  predicate RepoOk(s: Store, r: Repo) {
    forall f | f in r.refs && f.commit.Some? ::
      f.commit.value != NULL_SHA1 && exists c :: c in s.commits && c.id == f.commit.value
  }

  /** The tree and all parents are stored. */
  predicate CommitOk(s: Store, c: Commit) {
    && (exists t :: t in s.trees && t.id == c.tree)
    && forall p | p in c.parents :: exists d :: d in s.commits && d.id == p
  }

  /** Every entry is a stored tree or a stored object. */
  predicate TreeOk(s: Store, t: Tree) {
    forall e | e in t.entries ::
      || (e.kind == "tree" && exists u :: u in s.trees && u.id == e.sha1)
      || (e.kind == "object" && exists o :: o in s.objects && o.id == e.sha1)
  }

  /** The blob is stored, unless there is none, it is null, or an erratum says that it is lost. */
  predicate ObjectOk(s: Store, o: Object) {
    o.blob.Some? && o.blob.value != NULL_SHA1 && o.blob.value !in s.blobs ==>
      o.errata.Some? && exists e :: e in o.errata.value && (e == "ERA201507a" || e == "ERA201609a" || e == "ERA201609b")
  }

  predicate Sound(s: Store) {
    && (forall r | r in s.repos :: RepoOk(s, r)) && (forall c | c in s.commits :: CommitOk(s, c))
    && (forall t | t in s.trees :: TreeOk(s, t)) && (forall o | o in s.objects :: ObjectOk(s, o))
  }

  lemma GoodRepo(s: Store, r: Repo)
    ensures Good(s, RepoDoc(r)) <==> RepoOk(s, r)
  {
    if Good(s, RepoDoc(r)) {
      forall f | f in r.refs && f.commit.Some? ensures f.commit.value != NULL_SHA1 && HaveCommit(s, f.commit.value) {
        assert f == Ref(f.name, f.commit);
        assert !Truthful(s, InvalidCommit(RepoDoc(r), f.name));
        assert !Truthful(s, Missing(RepoDoc(r), CommitNode(f.commit.value)));
      }
    }
  }

  lemma GoodCommit(s: Store, c: Commit)
    ensures Good(s, CommitDoc(c)) <==> CommitOk(s, c)
  {
    if Good(s, CommitDoc(c)) {
      assert !Truthful(s, Missing(CommitDoc(c), TreeNode(c.tree)));
      forall p | p in c.parents ensures HaveCommit(s, p) {
        assert !Truthful(s, Missing(CommitDoc(c), CommitNode(p)));
      }
    }
  }

  lemma GoodTree(s: Store, t: Tree)
    ensures Good(s, TreeDoc(t)) <==> TreeOk(s, t)
  {
    if Good(s, TreeDoc(t)) {
      forall e | e in t.entries
        ensures (e.kind == "tree" && HaveTree(s, e.sha1)) || (e.kind == "object" && HaveObject(s, e.sha1))
      {
        assert e == TreeEntry(e.kind, e.sha1);
        assert !Truthful(s, InvalidEntryType(TreeDoc(t), e.kind));
        assert !Truthful(s, Missing(TreeDoc(t), TreeNode(e.sha1)));
        assert !Truthful(s, Missing(TreeDoc(t), ObjectNode(e.sha1)));
      }
    }
  }

  lemma GoodObject(s: Store, o: Object)
    ensures Good(s, ObjectDoc(o)) <==> ObjectOk(s, o)
  {
    assert forall e :: e in KNOWN_ERRATA <==> e == "ERA201507a" || e == "ERA201609a" || e == "ERA201609b";
    if Good(s, ObjectDoc(o)) && o.blob.Some? {
      assert !Truthful(s, Missing(ObjectDoc(o), BlobNode(o.blob.value)));
    }
  }

  predicate DocOk(s: Store, d: Doc) {
    match d
    case RepoDoc(r) => RepoOk(s, r)
    case CommitDoc(c) => CommitOk(s, c)
    case TreeDoc(t) => TreeOk(s, t)
    case ObjectDoc(o) => ObjectOk(s, o)
  }

  lemma GoodIsOk(s: Store, d: Doc)
    ensures Good(s, d) <==> DocOk(s, d)
  {
    hide Good, RepoOk, CommitOk, TreeOk, ObjectOk;
    match d
    case RepoDoc(r) => GoodRepo(s, r);
    case CommitDoc(c) => GoodCommit(s, c);
    case TreeDoc(t) => GoodTree(s, t);
    case ObjectDoc(o) => GoodObject(s, o);
  }

  lemma SoundIsGood(s: Store)
    ensures Sound(s) <==> forall d :: Stored(s, d) ==> Good(s, d)
  {
    hide Good, RepoOk, CommitOk, TreeOk, ObjectOk;
    if Sound(s) {
      forall d | Stored(s, d) ensures Good(s, d) {
        GoodIsOk(s, d);
      }
    }
    if forall d :: Stored(s, d) ==> Good(s, d) {
      forall r | r in s.repos ensures RepoOk(s, r) {
        assert Stored(s, RepoDoc(r));
        GoodRepo(s, r);
      }
      forall c | c in s.commits ensures CommitOk(s, c) {
        assert Stored(s, CommitDoc(c));
        GoodCommit(s, c);
      }
      forall t | t in s.trees ensures TreeOk(s, t) {
        assert Stored(s, TreeDoc(t));
        GoodTree(s, t);
      }
      forall o | o in s.objects ensures ObjectOk(s, o) {
        assert Stored(s, ObjectDoc(o));
        GoodObject(s, o);
      }
    }
  }

  /** The check is exact: it is ok if and only if the store is sound. */
  lemma OkIsExact(s: Store, errors: seq<Problem>)
    requires Reports(s, errors, AllDocs(s))
    ensures errors == [] <==> Sound(s)
  {
    hide Good, Truthful, Stored, AllDocs, Sound;
    SoundIsGood(s);
    if errors == [] {
      forall d | Stored(s, d) ensures Good(s, d) {
        OkDocIsGood(s, d);
      }
    } else {
      var docs := seq(|errors|, i requires 0 <= i < |errors| => errors[i].doc);
      assert docs[0] == errors[0].doc;
      BadIsExact(s, AllDocs(s), docs[0]);
      StoredIsScanned(s, docs[0]);
    }
  }
}
