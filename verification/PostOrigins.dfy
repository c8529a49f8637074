/** Where the entries that posting asks for come from, and what loading, expanding and
    collapsing a tree beforehand does to that. */
module PostOrigins {
  import opened Wrappers
  import opened Merkle
  import opened Entries
  import opened PostRequests

  // Which requests a tree makes, node by node.

  /** The entry object at `path`, if there is one. */
  function NodeAt(n: Node, path: seq<nat>): Option<Node>
    decreases |path|
  {
    if path == [] then Some(n)
    else if n.Tree? && path[0] < |n.entries| && n.entries[path[0]].Child? then
      NodeAt(n.entries[path[0]].node, path[1..])
    else None
  }

  /** The node itself asks for `r`: content that the client has is sent, and everything that
      the client knows only by id is copied from the repo of the node if that is another one. */
  predicate Asks(repo: RepoName, n: Node, r: Req) {
    match r
    case PostEntry(id) => !n.Lazy? && id == NodeId(n)
    case Upload(b) => n.Obj? && n.blob == BlobData(b)
    case CopyBlob(b, origin) => n.Obj? && n.blob == BlobSha(b) && b != NULL_SHA1 && n.repo == Some(origin) && origin != repo
    case CopyEntry(id, origin) =>
      && n.repo == Some(origin) && origin != repo
      && ((n.Lazy? && n.id == id) || (n.Tree? && exists s :: s in n.entries && s.Raw? && s.ref.id == id))
  }

  lemma {:induction false} AskedIsRequested(repo: RepoName, n: Node, path: seq<nat>, r: Req)
    requires NodeAt(n, path).Some? && Asks(repo, NodeAt(n, path).value, r)
    ensures r in Requests(repo, n)
    decreases |path|
  {
    if path != [] {
      AskedIsRequested(repo, n.entries[path[0]].node, path[1..], r);
      SlotIsIn(repo, n, path[0], r);
    } else if r.CopyEntry? && n.Tree? {
      var s :| s in n.entries && s.Raw? && s.ref.id == r.id;
      var j :| 0 <= j < |n.entries| && n.entries[j] == s;
      SlotIsIn(repo, n, j, r);
    }
  }

  lemma {:induction false} RequestedIsAsked(repo: RepoName, n: Node, r: Req) returns (path: seq<nat>)
    requires r in Requests(repo, n)
    ensures NodeAt(n, path).Some? && Asks(repo, NodeAt(n, path).value, r)
    decreases n
  {
    path := [];
    if n.Tree? && r != PostEntry(NodeId(n)) {
      var j := SlotOf(repo, n, |n.entries|, r);
      var s := n.entries[j];
      if s.Child? {
        var rest := RequestedIsAsked(repo, s.node, r);
        path := [j] + rest;
        assert path[1..] == rest;
      } else {
        assert s in n.entries;
      }
    }
  }

  /** Posting asks for exactly what the nodes of the tree ask for, each with its own origin. */
  lemma RequestedExactly(repo: RepoName, n: Node, r: Req)
    ensures r in Requests(repo, n) <==>
            exists path :: NodeAt(n, path).Some? && Asks(repo, NodeAt(n, path).value, r)
  {
    hide Requests, Asks;
    if r in Requests(repo, n) {
      var path := RequestedIsAsked(repo, n, r);
    }
    if path :| NodeAt(n, path).Some? && Asks(repo, NodeAt(n, path).value, r) {
      AskedIsRequested(repo, n, path, r);
    }
  }

  // Which nodes a post moves to the repo.

  /** After the first `k` requests of `n`, the node at `path` has moved exactly if `k >= d`. */
  predicate MovedAt(repo: RepoName, n: Node, path: seq<nat>, k: nat, d: nat)
    requires NodeAt(n, path).Some?
  {
    var c, m := NodeAt(n, path).value, NodeAt(MarkTo(repo, n, k), path);
    m.Some? && m.value.repo == if k >= d then Some(repo) else c.repo
  }

  lemma SlotRequestAt(repo: RepoName, n: Node, j: nat, i: nat)
    requires n.Tree? && j < |n.entries| && i < |SlotRequests(repo, n, j)|
    ensures var k := |SlotsRequests(repo, n, j)| + i;
            k < |Requests(repo, n)| && Requests(repo, n)[k] == SlotRequests(repo, n, j)[i]
  {
    SlotsPrefix(repo, n, j + 1, |n.entries|);
    hide SlotRequests;
    var a := SlotsRequests(repo, n, j + 1);
    assert a[|SlotsRequests(repo, n, j)| + i] == SlotRequests(repo, n, j)[i];
  }

  lemma MovedBelow(repo: RepoName, n: Node, path: seq<nat>, k: nat, d1: nat)
    requires path != [] && NodeAt(n, path).Some? && d1 > 0
    requires var c := n.entries[path[0]].node;
             MovedAt(repo, c, path[1..], Minus(k, |SlotsRequests(repo, n, path[0])|), d1)
    ensures MovedAt(repo, n, path, k, |SlotsRequests(repo, n, path[0])| + d1)
  {
    MarkedEntries(repo, n, k);
    assert MarkTo(repo, n, k).entries[path[0]] == MarkSlotTo(repo, n, path[0], k);
    hide MarkTo, SlotsRequests;
  }

  /** However far a post gets: a loaded node at any depth has moved to the repo exactly if the
      request to send its own entry, which is request `d - 1`, has been made. */
  lemma {:induction false} MovesWithItsEntry(repo: RepoName, n: Node, path: seq<nat>) returns (d: nat)
    requires NodeAt(n, path).Some? && !NodeAt(n, path).value.Lazy?
    ensures 0 < d <= |Requests(repo, n)| && Requests(repo, n)[d - 1] == PostEntry(NodeId(NodeAt(n, path).value))
    ensures forall k: nat :: MovedAt(repo, n, path, k, d)
    decreases |path|
  {
    if path == [] {
      d := |Requests(repo, n)|;
    } else {
      var j, c := path[0], n.entries[path[0]].node;
      var d1 := MovesWithItsEntry(repo, c, path[1..]);
      d := |SlotsRequests(repo, n, j)| + d1;
      SlotRequestAt(repo, n, j, d1 - 1);
      hide MovedAt, MarkTo, Requests;
      forall k: nat ensures MovedAt(repo, n, path, k, d) {
        MovedBelow(repo, n, path, k, d1);
      }
    }
  }

  // Loading and expanding keep what posting relies on.

  /** Each entry in the repo is there with what it refers to. */
  ghost predicate Closed(items: set<Item>) {
    forall id :: EntryItem(id) in items ==> Refs(id) <= items
  }

  lemma LoadKeepsRepo(n: Node)
    ensures Load(n).repo == n.repo
  {
  }

  lemma LoadKeepsConfirmed(repo: RepoName, items: set<Item>, n: Node)
    requires Closed(items) && Confirmed(repo, items, n)
    ensures Confirmed(repo, items, Load(n))
  {
    if n.Lazy? && n.id.TreeId? {
      var t := Load(n);
      forall s | s in t.entries ensures s.Raw? && (Foreign(repo, t) || EntryItem(s.ref.id) in items) {
        var i :| 0 <= i < |t.entries| && t.entries[i] == s;
        assert n.id.entries[i] in n.id.entries;
        assert EntryItem(s.ref.id) in Refs(n.id);
      }
    }
  }

  lemma ExpandSlotKeepsConfirmed(
    repo: RepoName, items: set<Item>, n: Node, i: nat, ofKind: Option<Kind>, pattern: bool)
    requires n.Tree? && i < |n.entries| && Closed(items) && Confirmed(repo, items, n)
    ensures var s := ExpandSlot(n.entries[i], n.repo, ofKind, pattern);
            if s.Raw? then Foreign(repo, n) || EntryItem(s.ref.id) in items else Confirmed(repo, items, s.node)
  {
    var s := n.entries[i];
    assert s in n.entries;
    var c := if s.Raw? then Lazy(s.ref.kind, s.ref.id, n.repo) else s.node;
    assert Confirmed(repo, items, c);
    hide Closed;
    LoadKeepsConfirmed(repo, items, c);
  }

  lemma ExpandKeepsConfirmed(repo: RepoName, items: set<Item>, n: Node, ofKind: Option<Kind>, pattern: bool)
    requires n.Tree? && Closed(items) && Confirmed(repo, items, n)
    ensures Confirmed(repo, items, Expanded(n, ofKind, pattern))
  {
    var m := Expanded(n, ofKind, pattern);
    hide Closed;
    forall s | s in m.entries
      ensures if s.Raw? then Foreign(repo, m) || EntryItem(s.ref.id) in items else Confirmed(repo, items, s.node)
    {
      var i :| 0 <= i < |m.entries| && m.entries[i] == s;
      ExpandSlotKeepsConfirmed(repo, items, n, i, ofKind, pattern);
    }
  }

  lemma {:induction false} ApplyAtKeepsConfirmed(
    repo: RepoName, items: set<Item>, n: Node, path: seq<nat>, op: Op)
    requires Closed(items) && Confirmed(repo, items, n) && !op.CollapseOp?
    ensures Confirmed(repo, items, ApplyAt(n, path, op))
    decreases |path|
  {
    hide Closed, Load, Expanded;
    if path == [] {
      LoadKeepsConfirmed(repo, items, n);
      if op.ExpandOp? && Load(n).Tree? {
        ExpandKeepsConfirmed(repo, items, Load(n), op.ofKind, op.pattern);
      }
    } else if n.Tree? && path[0] < |n.entries| && n.entries[path[0]].Child? {
      var m, c := ApplyAt(n, path, op), n.entries[path[0]].node;
      assert n.entries[path[0]] in n.entries;
      ApplyAtKeepsConfirmed(repo, items, c, path[1..], op);
      forall s | s in m.entries && s != m.entries[path[0]] ensures s in n.entries {}
    }
  }

  /** Whatever loads and expansions a client does, at any depth, before it posts a tree whose
      references are confirmed: they are still confirmed, so that the requests of the
      tree are in order and complete it. */
  lemma {:induction false} LoadedPostsComplete(
    repo: RepoName, items: set<Item>, n: Node, ops: seq<(seq<nat>, Op)>)
    requires Closed(items) && Confirmed(repo, items, n) && forall p | p in ops :: !p.1.CollapseOp?
    ensures var m := ApplyAll(n, ops);
            && Confirmed(repo, items, m) && InOrder(items, Requests(repo, m))
            && Complete(items + ReqItems(Requests(repo, m)), m)
  {
    hide Closed, Confirmed, ApplyAt, InOrder, Complete, Requests, ReqItems;
    if ops != [] {
      var k := |ops| - 1;
      assert ops[k] in ops;
      LoadedPostsComplete(repo, items, n, ops[..k]);
      ApplyAtKeepsConfirmed(repo, items, ApplyAll(n, ops[..k]), ops[k].0, ops[k].1);
    }
    RequestsInOrder(repo, items, ApplyAll(n, ops));
    FulfilledIsComplete(repo, items, ApplyAll(n, ops));
  }

  predicate Selected(s: Slot, ofKind: Option<Kind>) {
    ofKind.Some? ==> SlotRef(s).kind == ofKind.value
  }

  /** A raw reference of a tree from another repo that enumeration expands is requested as a
      copy from the repo of the tree.  If a pattern loaded it, its blob and its own
      references are. */
  lemma ExpandedIsCopied(repo: RepoName, t: Node, i: nat, ofKind: Option<Kind>, pattern: bool)
    requires t.Tree? && Foreign(repo, t) && i < |t.entries| && t.entries[i].Raw? && Selected(t.entries[i], ofKind)
    ensures var s := Expanded(t, ofKind, pattern).entries[i];
            && s.Child? && s.node.repo == t.repo
            && (!pattern ==> Requests(repo, s.node) == [CopyEntry(t.entries[i].ref.id, t.repo.value)])
            && forall x | pattern && x in Refs(t.entries[i].ref.id) ::
                 (if x.EntryItem? then CopyEntry(x.id, t.repo.value) else CopyBlob(x.b, t.repo.value)) in Requests(repo, s.node)
  {
    var ref := t.entries[i].ref;
    var c := Expanded(t, ofKind, pattern).entries[i].node;
    LoadKeepsRepo(Lazy(ref.kind, ref.id, t.repo));
    if pattern {
      forall x | x in Refs(ref.id)
        ensures (if x.EntryItem? then CopyEntry(x.id, t.repo.value) else CopyBlob(x.b, t.repo.value)) in Requests(repo, c)
      {
        LoadedRefIsCopied(repo, ref, t.repo, x);
      }
    }
  }

  lemma LoadedRefIsCopied(repo: RepoName, ref: Ref, origin: Option<RepoName>, x: Item)
    requires origin.Some? && origin.value != repo && x in Refs(ref.id)
    ensures var c := Load(Lazy(ref.kind, ref.id, origin));
            (if x.EntryItem? then CopyEntry(x.id, origin.value) else CopyBlob(x.b, origin.value)) in Requests(repo, c)
  {
    var c := Load(Lazy(ref.kind, ref.id, origin));
    if ref.id.TreeId? {
      var e :| e in ref.id.entries && x == EntryItem(e.id);
      var j :| 0 <= j < |ref.id.entries| && ref.id.entries[j] == e;
      assert c.entries[j] == Raw(e);
      SlotIsIn(repo, c, j, CopyEntry(e.id, origin.value));
    }
  }

  // Collapsing.

  /** Every entry object below is an object or a loaded tree. */
  ghost predicate LoadedBelow(n: Node) {
    forall path | NodeAt(n, path).Some? :: NodeAt(n, path).value.Tree? || NodeKind(NodeAt(n, path).value).ObjectKind?
  }

  lemma ChildIsLoaded(n: Node, j: nat)
    requires n.Tree? && j < |n.entries| && n.entries[j].Child? && LoadedBelow(n)
    ensures LoadedBelow(n.entries[j].node)
  {
    var c := n.entries[j].node;
    forall path | NodeAt(c, path).Some? ensures NodeAt(c, path).value.Tree? || NodeKind(NodeAt(c, path).value).ObjectKind? {
      assert ([j] + path)[1..] == path;
      assert NodeAt(n, [j] + path) == NodeAt(c, path);
    }
  }

  lemma {:induction false} CollapsibleIsLoaded(n: Node, path: seq<nat>)
    requires Collapsible(n) && NodeAt(n, path).Some?
    ensures NodeAt(n, path).value.Tree? || NodeKind(NodeAt(n, path).value).ObjectKind?
    decreases |path|
  {
    if path != [] {
      var s := n.entries[path[0]];
      assert s in n.entries;
      if s.node.Tree? {
        CollapsibleIsLoaded(s.node, path[1..]);
      } else {
        assert path[1..] == [];
      }
    }
  }

  lemma {:induction false} LoadedIsCollapsible(n: Node)
    requires n.Tree? && LoadedBelow(n)
    ensures Collapsible(n)
    decreases n
  {
    forall s | s in n.entries && s.Child?
      ensures NodeKind(s.node).ObjectKind? || (NodeKind(s.node).TreeKind? && Collapsible(s.node))
    {
      var j :| 0 <= j < |n.entries| && n.entries[j] == s;
      assert NodeAt(n, [j]) == Some(s.node) by { assert [j][1..] == []; }
      if s.node.Tree? {
        ChildIsLoaded(n, j);
        LoadedIsCollapsible(s.node);
      }
    }
  }

  /** A tree can be collapsed if and only if it is loaded and every entry object below it, at
      any depth, is an object or a loaded tree. */
  lemma CollapsibleExactly(n: Node)
    ensures Collapsible(n) <==> n.Tree? && LoadedBelow(n)
  {
    hide NodeAt;
    if Collapsible(n) {
      forall path | NodeAt(n, path).Some?
        ensures NodeAt(n, path).value.Tree? || NodeKind(NodeAt(n, path).value).ObjectKind?
      {
        CollapsibleIsLoaded(n, path);
      }
    }
    if n.Tree? && LoadedBelow(n) {
      LoadedIsCollapsible(n);
    }
  }


  /** Collapsing keeps the references confirmed if and only if the tree comes from another
      repo or all its entries are in the target repo. */
  lemma CollapseKeepsConfirmedExactly(repo: RepoName, items: set<Item>, n: Node)
    requires n.Tree?
    ensures Confirmed(repo, items, Collapsed(n)) <==>
            Foreign(repo, n) || forall s | s in n.entries :: EntryItem(SlotRef(s).id) in items
  {
    var m := Collapsed(n);
    forall s | s in n.entries ensures Raw(SlotRef(s)) in m.entries {
      var i :| 0 <= i < |n.entries| && n.entries[i] == s;
      assert m.entries[i] == Raw(SlotRef(s));
    }
    forall s | s in m.entries ensures s.Raw? && exists s0 :: s0 in n.entries && SlotRef(s0) == s.ref {
      var i :| 0 <= i < |m.entries| && m.entries[i] == s;
      assert n.entries[i] in n.entries;
    }
    if Confirmed(repo, items, m) && !Foreign(repo, n) {
      forall s | s in n.entries ensures EntryItem(SlotRef(s).id) in items {
        assert Raw(SlotRef(s)) in m.entries;
      }
    }
  }

  /** A local tree with an object of another repo asks for a copy of the object.  Once it is
      collapsed, it does not, and its reference dangles. */
  lemma CollapsedForgetsCopy(repo: RepoName, other: RepoName, id: Id)
    requires other != repo
    ensures var n := Tree("", "", [Child(Lazy(ObjectKind, id, Some(other)))], Some(repo));
            && Collapsible(n) && Confirmed(repo, {}, n) && CopyEntry(id, other) in Requests(repo, n)
            && Requests(repo, Collapsed(n)) == [PostEntry(NodeId(n))] && EntryItem(id) in Refs(NodeId(n))
  {
    var c := Lazy(ObjectKind, id, Some(other));
    var n := Tree("", "", [Child(c)], Some(repo));
    assert n.entries[0] == Child(c);
    SlotIsIn(repo, n, 0, CopyEntry(id, other));
    SlotRefsAt(n.entries);
    assert SlotRef(Child(c)) == Ref(ObjectKind, id);
    assert SlotRefs(n.entries)[0] in SlotRefs(n.entries);
    var m := Collapsed(n);
    SameRefsSameId(m.entries, n.entries);
    assert SlotRequests(repo, m, 0) == [];
    assert SlotsRequests(repo, m, 1) == [];
  }
}
