/** The lazily loaded trees and objects of the Python client.

    A node is an entry object.  A lazy node only has an id; loading it replaces the id by
    content.  The entries of a loaded tree are raw references or nodes.  Nodes are values
    here: an entry object that appears at two places of a tree is two nodes. */
module Entries {
  import opened Wrappers
  import opened Merkle

  type RepoName = string

  /** `BlobData` is a local file or buffer, which `b` is the id of. */
  datatype BlobSlot = NoBlob | BlobSha(b: BlobId) | BlobData(b: BlobId)

  datatype Node =
    | Lazy(kind: Kind, id: Id, repo: Option<RepoName>)
    | Obj(name: string, meta: string, blob: BlobSlot, repo: Option<RepoName>)
    | Tree(name: string, meta: string, entries: seq<Slot>, repo: Option<RepoName>)

  datatype Slot = Raw(ref: Ref) | Child(node: Node)

  // Ids.

  function BlobOf(b: BlobSlot): Option<BlobId> {
    if b.NoBlob? then None else Some(b.b)
  }

  /** The `sha1` property. */
  function NodeId(n: Node): Id {
    match n
    case Lazy(_, id, _) => id
    case Obj(name, meta, blob, _) => ObjectId(name, meta, BlobOf(blob))
    case Tree(name, meta, entries, _) => TreeId(name, meta, SlotRefs(entries))
  }

  function NodeKind(n: Node): Kind {
    match n
    case Lazy(kind, _, _) => kind
    case Obj(_, _, _, _) => ObjectKind
    case Tree(_, _, _, _) => TreeKind
  }

  function SlotRef(s: Slot): Ref {
    match s
    case Raw(ref) => ref
    case Child(n) => Ref(NodeKind(n), NodeId(n))
  }

  /** The collapsed entries of the `content` property. */
  function SlotRefs(entries: seq<Slot>): seq<Ref> {
    if entries == [] then [] else SlotRefs(entries[..|entries| - 1]) + [SlotRef(entries[|entries| - 1])]
  }

  lemma {:induction false} SlotRefsAt(entries: seq<Slot>)
    ensures |SlotRefs(entries)| == |entries|
    ensures forall i :: 0 <= i < |entries| ==> SlotRefs(entries)[i] == SlotRef(entries[i])
  {
    if entries != [] {
      SlotRefsAt(entries[..|entries| - 1]);
    }
  }

  lemma SameRefsSameId(a: seq<Slot>, b: seq<Slot>)
    requires |a| == |b| && forall i :: 0 <= i < |a| ==> SlotRef(a[i]) == SlotRef(b[i])
    ensures SlotRefs(a) == SlotRefs(b)
  {
    SlotRefsAt(a);
    SlotRefsAt(b);
  }

  // Loading and expanding.

  /** The content that belongs to an id. */
  function Content(id: Id, repo: Option<RepoName>): Node {
    match id
    case ObjectId(name, meta, blob) => Obj(name, meta, if blob.None? then NoBlob else BlobSha(blob.value), repo)
    case TreeId(name, meta, entries) => Tree(name, meta, seq(|entries|, i requires 0 <= i < |entries| => Raw(entries[i])), repo)
  }

  /** `_ensureContent()` of a lazy node whose content is available. */
  function Load(n: Node): Node {
    if n.Lazy? then Content(n.id, n.repo) else n
  }

  lemma LoadKeepsId(n: Node)
    ensures NodeId(Load(n)) == NodeId(n)
    ensures !Load(n).Lazy?
  {
    if n.Lazy? && n.id.TreeId? {
      var t := Content(n.id, n.repo);
      SlotRefsAt(t.entries);
      assert SlotRefs(t.entries) == n.id.entries;
    }
  }

  /** One step of `enumerateEntries()`: a raw reference becomes a lazy node, and a pattern
      loads the node to look at its name. */
  function ExpandSlot(s: Slot, repo: Option<RepoName>, ofKind: Option<Kind>, pattern: bool): Slot {
    if ofKind.Some? && SlotRef(s).kind != ofKind.value then s
    else
      var n := if s.Raw? then Lazy(s.ref.kind, s.ref.id, repo) else s.node;
      Child(if pattern then Load(n) else n)
  }

  method EnumerateEntries(t: Node, ofKind: Option<Kind>, pattern: bool) returns (r: Node)
    requires t.Tree?
    ensures r.Tree? && r.name == t.name && r.meta == t.meta && r.repo == t.repo && |r.entries| == |t.entries|
    ensures forall i :: 0 <= i < |t.entries| ==> r.entries[i] == ExpandSlot(t.entries[i], t.repo, ofKind, pattern)
  {
    var entries := t.entries;
    for i := 0 to |entries|
      invariant |entries| == |t.entries|
      invariant forall k :: 0 <= k < i ==> entries[k] == ExpandSlot(t.entries[k], t.repo, ofKind, pattern)
      invariant forall k :: i <= k < |entries| ==> entries[k] == t.entries[k]
    {
      entries := entries[i := ExpandSlot(entries[i], t.repo, ofKind, pattern)];
    }
    r := t.(entries := entries);
  }

  /** A slot keeps its reference when it is expanded, unless a pattern loads content of
      another kind than the reference claims. */
  lemma ExpandSlotKeepsRef(s: Slot, repo: Option<RepoName>, ofKind: Option<Kind>, pattern: bool)
    requires pattern ==> WellKinded(SlotRef(s))
    ensures SlotRef(ExpandSlot(s, repo, ofKind, pattern)) == SlotRef(s)
  {
    LoadKeepsId(if s.Raw? then Lazy(s.ref.kind, s.ref.id, repo) else s.node);
  }

  predicate WellKinded(ref: Ref) {
    if ref.id.TreeId? then ref.kind.TreeKind? else ref.kind.ObjectKind?
  }

  /** The id of a tree does not change when its entries are expanded. */
  lemma ExpandKeepsId(t: Node, r: Node, ofKind: Option<Kind>, pattern: bool)
    requires t.Tree? && r.Tree? && r.name == t.name && r.meta == t.meta && |r.entries| == |t.entries|
    requires forall i :: 0 <= i < |t.entries| ==> r.entries[i] == ExpandSlot(t.entries[i], t.repo, ofKind, pattern)
    requires pattern ==> forall i :: 0 <= i < |t.entries| ==> WellKinded(SlotRef(t.entries[i]))
    ensures NodeId(r) == NodeId(t)
  {
    forall i | 0 <= i < |t.entries| ensures SlotRef(r.entries[i]) == SlotRef(t.entries[i]) {
      ExpandSlotKeepsRef(t.entries[i], t.repo, ofKind, pattern);
    }
    SameRefsSameId(r.entries, t.entries);
  }

  // Collapsing.

  /** `collapse()` subscripts the content of every tree below; it raises if one is not
      loaded, or if an entry is neither object nor tree. */
  predicate Collapsible(n: Node) {
    n.Tree? && forall s | s in n.entries && s.Child? ::
      NodeKind(s.node).ObjectKind? || (NodeKind(s.node).TreeKind? && Collapsible(s.node))
  }

  predicate SlotCollapsible(s: Slot) {
    s.Raw? || NodeKind(s.node).ObjectKind? || (NodeKind(s.node).TreeKind? && Collapsible(s.node))
  }

  /** All entries are raw references. */
  function Collapsed(n: Node): Node
    requires n.Tree?
  {
    Tree(n.name, n.meta, seq(|n.entries|, i requires 0 <= i < |n.entries| => Raw(SlotRef(n.entries[i]))), n.repo)
  }

  /** The index of the first entry at which `collapse()` raises. */
  function FirstStuck(entries: seq<Slot>): (k: nat)
    ensures k <= |entries| && (forall i :: 0 <= i < k ==> SlotCollapsible(entries[i]))
    ensures k < |entries| ==> !SlotCollapsible(entries[k])
  {
    if entries == [] || !SlotCollapsible(entries[0]) then 0 else 1 + FirstStuck(entries[1..])
  }

  /** What `collapse()` leaves: if it raises, the entries up to there that are trees have been
      collapsed as far as possible. */
  function Tried(n: Node): Node
    decreases n
  {
    if !n.Tree? then n
    else if Collapsible(n) then Collapsed(n)
    else
      Tree(n.name, n.meta,
           seq(|n.entries|, i requires 0 <= i < |n.entries| =>
             if i <= FirstStuck(n.entries) && n.entries[i].Child? then Child(Tried(n.entries[i].node)) else n.entries[i]),
           n.repo)
  }

  function TriedSlot(s: Slot): Slot {
    if s.Child? then Child(Tried(s.node)) else s
  }

  /** If `collapse()` raises at entry `k`, the loaded trees before `k` are collapsed and the
      entries after `k` are as they were. */
  lemma RaiseLeaves(n: Node, k: nat, i: nat)
    requires n.Tree? && k < |n.entries| && i < |n.entries|
    requires !SlotCollapsible(n.entries[k]) && forall j :: 0 <= j < k ==> SlotCollapsible(n.entries[j])
    ensures var s, m := n.entries[i], Tried(n);
            && m.Tree? && |m.entries| == |n.entries|
            && (i < k && s.Child? && s.node.Tree? ==> m.entries[i] == Child(Collapsed(s.node)))
            && (i > k || s.Raw? || !s.node.Tree? ==> m.entries[i] == s)
  {
    assert n.entries[k] in n.entries;
    assert FirstStuck(n.entries) == k;
  }

  lemma {:induction false} TriedKeepsId(n: Node)
    ensures NodeId(Tried(n)) == NodeId(n) && NodeKind(Tried(n)) == NodeKind(n)
    decreases n
  {
    if n.Tree? {
      var m := Tried(n);
      forall i | 0 <= i < |n.entries| ensures SlotRef(m.entries[i]) == SlotRef(n.entries[i]) {
        if n.entries[i].Child? {
          TriedKeepsId(n.entries[i].node);
        }
      }
      SameRefsSameId(m.entries, n.entries);
    }
  }

  lemma TriedUpTo(n: Node, i: nat, entries: seq<Slot>)
    requires n.Tree? && i < |n.entries| == |entries| && !SlotCollapsible(n.entries[i])
    requires forall k :: 0 <= k < i ==> SlotCollapsible(n.entries[k])
    requires forall k :: 0 <= k < |entries| ==> entries[k] == if k <= i then TriedSlot(n.entries[k]) else n.entries[k]
    ensures !Collapsible(n) && Tried(n) == n.(entries := entries)
  {
    assert n.entries[i] in n.entries;
    assert FirstStuck(n.entries) == i;
    assert Tried(n).entries == entries;
  }

  lemma TriedAll(n: Node, collapsed: seq<Slot>)
    requires n.Tree? && |n.entries| == |collapsed|
    requires forall k :: 0 <= k < |n.entries| ==> collapsed[k] == Raw(SlotRef(n.entries[k])) && SlotCollapsible(n.entries[k])
    ensures Collapsible(n) && Tried(n) == Collapsed(n) == n.(entries := collapsed)
  {
    assert Collapsed(n).entries == collapsed;
  }

  lemma TriedObject(n: Node)
    requires !NodeKind(n).TreeKind?
    ensures Tried(n) == n
  {
  }

  /** `ok` is false where the source raises.  Either way the id stays. */
  method Collapse(n: Node) returns (ok: bool, m: Node)
    ensures ok <==> Collapsible(n)
    ensures m == Tried(n) && (ok ==> m == Collapsed(n)) && NodeId(m) == NodeId(n)
    decreases n, 1
  {
    TriedKeepsId(n);
    if !n.Tree? {
      return false, n;
    }
    hide Tried, TriedSlot, Collapsible, SlotCollapsible, Collapsed, NodeId, SlotRef;
    var collapsed: seq<Slot> := [];
    var entries := n.entries;
    for i := 0 to |n.entries|
      invariant |collapsed| == i && |entries| == |n.entries|
      invariant forall k :: 0 <= k < i ==> collapsed[k] == Raw(SlotRef(n.entries[k])) && SlotCollapsible(n.entries[k])
      invariant forall k :: 0 <= k < i ==> entries[k] == TriedSlot(n.entries[k])
      invariant forall k :: i <= k < |entries| ==> entries[k] == n.entries[k]
    {
      var done, s, ref := CollapseSlot(n, i);
      entries := entries[i := s];
      if !done {
        TriedUpTo(n, i, entries);
        return false, n.(entries := entries);
      }
      collapsed := collapsed + [Raw(ref)];
    }
    TriedAll(n, collapsed);
    return true, n.(entries := collapsed);
  }

  /** One round of the loop: what becomes of the entry, and its reference. */
  method CollapseSlot(n: Node, i: nat) returns (ok: bool, s: Slot, ref: Ref)
    requires n.Tree? && i < |n.entries|
    ensures ok <==> SlotCollapsible(n.entries[i])
    ensures s == TriedSlot(n.entries[i]) && (ok ==> ref == SlotRef(n.entries[i]))
    decreases n, 0
  {
    s := n.entries[i];
    hide Tried, Collapsible, Collapsed, NodeId;
    match s
    case Raw(raw) =>
      return true, s, raw;
    case Child(c) =>
      if NodeKind(c).TreeKind? {
        var m;
        ok, m := Collapse(c);
        return ok, Child(m), Ref(TreeKind, NodeId(m));
      }
      TriedObject(c);
      return NodeKind(c).ObjectKind?, s, Ref(ObjectKind, NodeId(c));
  }

  /** A tree with an entry that is a lazy tree, as enumeration without pattern leaves it,
      cannot be collapsed. */
  lemma LazySubtreeIsNotCollapsible(t: Node, s: Slot)
    requires t.Tree? && s in t.entries && s.Child? && s.node.Lazy? && s.node.kind.TreeKind?
    ensures !Collapsible(t)
  {
  }

  // Any sequence of operations at any depth.

  datatype Op = LoadOp | ExpandOp(ofKind: Option<Kind>, pattern: bool) | CollapseOp

  function Expanded(n: Node, ofKind: Option<Kind>, pattern: bool): Node
    requires n.Tree?
  {
    Tree(n.name, n.meta,
         seq(|n.entries|, i requires 0 <= i < |n.entries| => ExpandSlot(n.entries[i], n.repo, ofKind, pattern)), n.repo)
  }

  function ApplyHere(n: Node, op: Op): Node {
    match op
    case LoadOp => Load(n)
    case ExpandOp(ofKind, pattern) => if Load(n).Tree? then Expanded(Load(n), ofKind, pattern) else n
    case CollapseOp => Tried(n)
  }

  /** Apply the operation to the entry object at `path`, if there is one. */
  function ApplyAt(n: Node, path: seq<nat>, op: Op): Node
    decreases |path|
  {
    if path == [] then ApplyHere(n, op)
    else if n.Tree? && path[0] < |n.entries| && n.entries[path[0]].Child? then
      Tree(n.name, n.meta, n.entries[path[0] := Child(ApplyAt(n.entries[path[0]].node, path[1..], op))], n.repo)
    else n
  }

  function ApplyAll(n: Node, ops: seq<(seq<nat>, Op)>): Node {
    if ops == [] then n
    else var (path, op) := ops[|ops| - 1]; ApplyAt(ApplyAll(n, ops[..|ops| - 1]), path, op)
  }

  /** All references below have the type of their content. */
  predicate WellKindedId(id: Id) {
    id.TreeId? ==> forall e | e in id.entries :: WellKinded(e) && WellKindedId(e.id)
  }

  predicate WellKindedNode(n: Node) {
    match n
    case Lazy(kind, id, _) => WellKinded(Ref(kind, id)) && WellKindedId(id)
    case Obj(_, _, _, _) => true
    case Tree(_, _, entries, _) =>
      forall s | s in entries ::
        match s
        case Raw(ref) => WellKinded(ref) && WellKindedId(ref.id)
        case Child(c) => WellKindedNode(c)
  }

  lemma {:induction false} WellKindedNodeId(n: Node)
    requires WellKindedNode(n)
    ensures WellKinded(Ref(NodeKind(n), NodeId(n))) && WellKindedId(NodeId(n))
    decreases n
  {
    if n.Tree? {
      SlotRefsAt(n.entries);
      var refs := SlotRefs(n.entries);
      forall e | e in refs ensures WellKinded(e) && WellKindedId(e.id) {
        var i :| 0 <= i < |refs| && refs[i] == e;
        assert n.entries[i] in n.entries;
        if n.entries[i].Child? {
          WellKindedNodeId(n.entries[i].node);
        }
      }
    }
  }

  /** What every operation keeps. */
  ghost predicate Keeps(n: Node, m: Node) {
    WellKindedNode(m) && NodeId(m) == NodeId(n) && NodeKind(m) == NodeKind(n)
  }

  lemma LoadKeeps(n: Node)
    requires WellKindedNode(n)
    ensures Keeps(n, Load(n))
  {
    LoadKeepsId(n);
    if n.Lazy? && n.id.TreeId? {
      var t := Load(n);
      forall s | s in t.entries ensures s.Raw? && WellKinded(s.ref) && WellKindedId(s.ref.id) {
        var i :| 0 <= i < |t.entries| && t.entries[i] == s;
        assert n.id.entries[i] in n.id.entries;
      }
    }
  }

  lemma ExpandKeeps(n: Node, ofKind: Option<Kind>, pattern: bool)
    requires n.Tree? && WellKindedNode(n)
    ensures Keeps(n, Expanded(n, ofKind, pattern))
  {
    var m := Expanded(n, ofKind, pattern);
    forall i | 0 <= i < |n.entries| ensures SlotRef(m.entries[i]) == SlotRef(n.entries[i])
                                    ensures m.entries[i].Child? ==> WellKindedNode(m.entries[i].node) {
      var s := n.entries[i];
      assert s in n.entries;
      var c := if s.Raw? then Lazy(s.ref.kind, s.ref.id, n.repo) else s.node;
      WellKindedNodeId(c);
      LoadKeeps(c);
      ExpandSlotKeepsRef(s, n.repo, ofKind, pattern);
    }
    SameRefsSameId(m.entries, n.entries);
    forall s | s in m.entries && s.Raw? ensures WellKinded(s.ref) && WellKindedId(s.ref.id) {
      var i :| 0 <= i < |m.entries| && m.entries[i] == s;
      assert s == n.entries[i] && n.entries[i] in n.entries;
    }
  }

  lemma CollapseKeeps(n: Node)
    requires n.Tree? && WellKindedNode(n)
    ensures Keeps(n, Collapsed(n))
  {
    var m := Collapsed(n);
    SameRefsSameId(m.entries, n.entries);
    forall s | s in m.entries ensures WellKinded(s.ref) && WellKindedId(s.ref.id) {
      var i :| 0 <= i < |m.entries| && m.entries[i] == s;
      assert n.entries[i] in n.entries;
      if n.entries[i].Child? {
        WellKindedNodeId(n.entries[i].node);
      }
    }
  }

  lemma {:induction false} TriedKeeps(n: Node)
    requires WellKindedNode(n)
    ensures Keeps(n, Tried(n))
    decreases n
  {
    TriedKeepsId(n);
    if Collapsible(n) {
      CollapseKeeps(n);
    } else if n.Tree? {
      var m := Tried(n);
      forall s | s in m.entries && s.Child? ensures WellKindedNode(s.node) {
        var i :| 0 <= i < |m.entries| && m.entries[i] == s;
        assert n.entries[i] in n.entries;
        TriedKeeps(n.entries[i].node);
      }
      forall s | s in m.entries && s.Raw? ensures s in n.entries {}
    }
  }

  lemma {:induction false} ApplyAtKeeps(n: Node, path: seq<nat>, op: Op)
    requires WellKindedNode(n)
    ensures Keeps(n, ApplyAt(n, path, op))
    decreases |path|
  {
    if path == [] {
      LoadKeeps(n);
      match op
      case LoadOp =>
      case ExpandOp(ofKind, pattern) =>
        if Load(n).Tree? {
          ExpandKeeps(Load(n), ofKind, pattern);
        }
      case CollapseOp => TriedKeeps(n);
    } else if n.Tree? && path[0] < |n.entries| && n.entries[path[0]].Child? {
      var m, c := ApplyAt(n, path, op), n.entries[path[0]].node;
      assert n.entries[path[0]] in n.entries;
      ApplyAtKeeps(c, path[1..], op);
      SameRefsSameId(m.entries, n.entries);
      forall s | s in m.entries && s != m.entries[path[0]] ensures s in n.entries {}
    }
  }

  /** The id of a tree does not change under any sequence of loads, expansions and collapses,
      also of such that raise, at the tree or at any entry object below it. */
  lemma {:induction false} IdIsStable(n: Node, ops: seq<(seq<nat>, Op)>)
    requires WellKindedNode(n)
    ensures Keeps(n, ApplyAll(n, ops))
  {
    if ops != [] {
      hide Keeps, ApplyAt, WellKindedNode;
      var m := ApplyAll(n, ops[..|ops| - 1]);
      IdIsStable(n, ops[..|ops| - 1]);
      KeptIsWellKinded(n, m);
      ApplyAtKeeps(m, ops[|ops| - 1].0, ops[|ops| - 1].1);
      KeepsTransitive(n, m, ApplyAll(n, ops));
    } else {
      KeptByNothing(n);
    }
  }

  lemma KeptIsWellKinded(n: Node, m: Node)
    requires Keeps(n, m)
    ensures WellKindedNode(m)
  {
  }

  lemma KeptByNothing(n: Node)
    requires WellKindedNode(n)
    ensures Keeps(n, n)
  {
  }

  lemma KeepsTransitive(n: Node, m: Node, k: Node)
    requires Keeps(n, m) && Keeps(m, k)
    ensures Keeps(n, k)
  {
  }

  // The caches.

  /** Content as the server returns it, with the fields that are not part of the id. */
  datatype Fetched = Fetched(id: Id, idversion: nat, content: Id)

  /** `Miss` where the source raises a key error, `Corrupt` where the content on disk does
      not match its id. */
  datatype Lookup = Hit(content: Id) | Miss | Corrupt

  datatype Cached = Cached(content: Id, extra: Option<(Id, nat)>)

  class EntryCache {
    var disk: map<Id, Id>
    var mem: map<Id, Cached>

    /** Every entry sits under the content id of its stripped content. */
    predicate Valid()
      reads this
    {
      (forall k | k in disk :: disk[k] == k) && (forall k | k in mem :: mem[k].content == k)
    }

    constructor ()
      ensures Valid() && disk == map[] && mem == map[]
    {
      disk, mem := map[], map[];
    }

    /** False where the source raises because the content does not match the id. */
    method Add(k: Id, f: Fetched) returns (ok: bool)
      modifies this
      ensures ok <==> f.content == k
      ensures ok ==> disk == old(disk)[k := k] && mem == old(mem)[k := Cached(k, Some((f.id, f.idversion)))]
      ensures !ok ==> disk == old(disk) && mem == old(mem)
      ensures old(Valid()) ==> Valid()
    {
      if f.content != k {
        return false;
      }
      disk := disk[k := f.content];
      mem := mem[k := Cached(f.content, Some((f.id, f.idversion)))];
      return true;
    }

    /** Answers come from memory or from the verified disk content.  Other processes share the
        disk; whatever is on it, content that is returned belongs to the id. */
    method Get(k: Id) returns (r: Lookup)
      requires forall i | i in mem :: mem[i].content == i
      modifies this`mem
      ensures r == if k in old(mem) || (k in disk && disk[k] == k) then Hit(k) else if k in disk then Corrupt else Miss
      ensures forall i | i in mem :: mem[i].content == i
      ensures mem == if k !in old(mem) && r.Hit? then old(mem)[k := Cached(k, None)] else old(mem)
    {
      if k in mem {
        return Hit(mem[k].content);
      }
      if k !in disk {
        return Miss;
      }
      if disk[k] != k {
        return Corrupt;
      }
      mem := mem[k := Cached(disk[k], None)];
      return Hit(disk[k]);
    }
  }
}
