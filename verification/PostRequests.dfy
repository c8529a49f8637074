/** What posting a tree asks the repo for: the requests in the order in which the client makes
    them, without the buffer, the deduplication and the failures of the stream. */
module PostRequests {
  import opened Wrappers
  import opened Merkle
  import opened Entries

  const NULL_SHA1: BlobId := "0000000000000000000000000000000000000000"

  /** What a repo can contain.  Blob ids are kept apart from entry ids. */
  datatype Item = EntryItem(id: Id) | BlobItem(b: BlobId)

  /** What an entry refers to. */
  function Refs(id: Id): set<Item> {
    match id
    case ObjectId(_, _, blob) => if blob.None? || blob.value == NULL_SHA1 then {} else {BlobItem(blob.value)}
    case TreeId(_, _, entries) => set e | e in entries :: EntryItem(e.id)
  }

  /** Send an entry with content, copy from another repo, or upload a blob. */
  datatype Req = PostEntry(id: Id) | CopyEntry(id: Id, origin: RepoName) | CopyBlob(b: BlobId, origin: RepoName) | Upload(b: BlobId)

  function ItemOf(r: Req): Item {
    if r.CopyBlob? || r.Upload? then BlobItem(r.b) else EntryItem(r.id)
  }

  function ReqItems(rs: seq<Req>): set<Item> {
    set k | 0 <= k < |rs| :: ItemOf(rs[k])
  }

  lemma ReqItemsAppend(a: seq<Req>, b: seq<Req>)
    ensures ReqItems(a + b) == ReqItems(a) + ReqItems(b)
  {
    var c := a + b;
    forall q | q in ReqItems(a) + ReqItems(b) ensures q in ReqItems(c) {
      if q in ReqItems(a) {
        var k :| 0 <= k < |a| && ItemOf(a[k]) == q;
        assert c[k] == a[k];
      } else {
        var k :| 0 <= k < |b| && ItemOf(b[k]) == q;
        assert c[|a| + k] == b[k];
      }
    }
  }

  lemma ReqItemsOfOne(r: Req)
    ensures ReqItems([r]) == {ItemOf(r)} && ReqItems([]) == {}
  {
    assert [r][0] == r;
  }

  lemma ItemIsIn(rs: seq<Req>, r: Req)
    requires r in rs
    ensures ItemOf(r) in ReqItems(rs)
  {
  }

  // The requests of a node.

  /** The node comes from another repo. */
  predicate Foreign(repo: RepoName, n: Node) {
    n.repo.Some? && n.repo.value != repo
  }

  function BlobRequests(repo: RepoName, n: Node): seq<Req>
    requires n.Obj?
  {
    if n.blob.BlobData? then [Upload(n.blob.b)]
    else if n.blob.BlobSha? && n.blob.b != NULL_SHA1 && Foreign(repo, n) then [CopyBlob(n.blob.b, n.repo.value)]
    else []
  }

  /** The requests that `_postToStream()` makes, children first. */
  function Requests(repo: RepoName, n: Node): seq<Req>
    decreases n, 2, 0
  {
    match n
    case Lazy(_, id, _) => if Foreign(repo, n) then [CopyEntry(id, n.repo.value)] else []
    case Obj(_, _, _, _) => BlobRequests(repo, n) + [PostEntry(NodeId(n))]
    case Tree(_, _, entries, _) => SlotsRequests(repo, n, |entries|) + [PostEntry(NodeId(n))]
  }

  /** The requests of the first `i` entries of a tree. */
  function SlotsRequests(repo: RepoName, n: Node, i: nat): seq<Req>
    requires n.Tree? && i <= |n.entries|
    decreases n, 1, i
  {
    if i == 0 then [] else SlotsRequests(repo, n, i - 1) + SlotRequests(repo, n, i - 1)
  }

  function SlotRequests(repo: RepoName, n: Node, j: nat): seq<Req>
    requires n.Tree? && j < |n.entries|
    decreases n, 0, 0
  {
    match n.entries[j]
    case Raw(ref) => if Foreign(repo, n) then [CopyEntry(ref.id, n.repo.value)] else []
    case Child(c) => Requests(repo, c)
  }

  lemma {:induction false} SlotsPrefix(repo: RepoName, n: Node, i: nat, j: nat)
    requires n.Tree? && i <= j <= |n.entries|
    ensures SlotsRequests(repo, n, i) <= SlotsRequests(repo, n, j)
    decreases j
  {
    if i < j {
      SlotsPrefix(repo, n, i, j - 1);
    }
  }

  lemma SlotIsIn(repo: RepoName, n: Node, j: nat, r: Req)
    requires n.Tree? && j < |n.entries| && r in SlotRequests(repo, n, j)
    ensures r in Requests(repo, n)
  {
    hide SlotRequests;
    SlotsPrefix(repo, n, j + 1, |n.entries|);
    assert r in SlotsRequests(repo, n, j + 1);
    var a, b := SlotsRequests(repo, n, j + 1), SlotsRequests(repo, n, |n.entries|);
    var i :| 0 <= i < |a| && a[i] == r;
    assert b[i] == r;
  }

  lemma {:induction false} SlotOf(repo: RepoName, n: Node, i: nat, r: Req) returns (j: nat)
    requires n.Tree? && i <= |n.entries| && r in SlotsRequests(repo, n, i)
    ensures j < i && r in SlotRequests(repo, n, j)
    decreases i
  {
    hide SlotRequests;
    if r in SlotRequests(repo, n, i - 1) {
      j := i - 1;
    } else {
      j := SlotOf(repo, n, i - 1, r);
    }
  }

  // Deduplication.

  /** The requests of a stream after further ones: only the first for an item counts, and
      none for items that are known to be in the repo. */
  function Add(known: set<Item>, reqs: seq<Req>, more: seq<Req>): seq<Req> {
    if more == [] then reqs
    else
      var before, r := Add(known, reqs, more[..|more| - 1]), more[|more| - 1];
      if ItemOf(r) in known + ReqItems(before) then before else before + [r]
  }

  lemma {:induction false} AddAppend(known: set<Item>, reqs: seq<Req>, a: seq<Req>, b: seq<Req>)
    ensures Add(known, reqs, a + b) == Add(known, Add(known, reqs, a), b)
  {
    if b == [] {
      assert a + b == a;
    } else {
      assert (a + b)[..|a + b| - 1] == a + b[..|b| - 1];
      AddAppend(known, reqs, a, b[..|b| - 1]);
    }
  }

  lemma AddOne(known: set<Item>, reqs: seq<Req>, r: Req)
    ensures Add(known, reqs, [r]) == if ItemOf(r) in known + ReqItems(reqs) then reqs else reqs + [r]
    ensures Add(known, reqs, []) == reqs
  {
    assert [r][..0] == [];
  }

  /** No item is requested twice. */
  ghost predicate DistinctItems(rs: seq<Req>) {
    forall i, j :: 0 <= i < j < |rs| ==> ItemOf(rs[i]) != ItemOf(rs[j])
  }

  lemma SameItemSameReq(rs: seq<Req>, a: Req, b: Req)
    requires DistinctItems(rs) && a in rs && b in rs && ItemOf(a) == ItemOf(b)
    ensures a == b
  {
    var i :| 0 <= i < |rs| && rs[i] == a;
    var j :| 0 <= j < |rs| && rs[j] == b;
    assert !(i < j) && !(j < i);
  }

  lemma {:induction false} AddFacts(known: set<Item>, more: seq<Req>)
    ensures var reqs := Add(known, [], more);
            && DistinctItems(reqs) && known + ReqItems(reqs) == known + ReqItems(more)
            && forall r | r in reqs :: r in more
  {
    if more == [] {
      ReqItemsOfOne(Upload(""));
    } else {
      var rest, r := more[..|more| - 1], more[|more| - 1];
      var before := Add(known, [], rest);
      AddFacts(known, rest);
      assert more == rest + [r];
      ReqItemsAppend(rest, [r]);
      ReqItemsAppend(before, [r]);
      ReqItemsOfOne(r);
      if ItemOf(r) !in known + ReqItems(before) {
        forall i | 0 <= i < |before| ensures ItemOf(before[i]) != ItemOf(r) {
          ItemIsIn(before, before[i]);
        }
      }
    }
  }

  // Order.

  /** Every entry that is sent with content refers only to `items` and to earlier requests. */
  ghost predicate InOrder(items: set<Item>, rs: seq<Req>) {
    forall i :: 0 <= i < |rs| && rs[i].PostEntry? ==> Refs(rs[i].id) <= items + ReqItems(rs[..i])
  }

  lemma InOrderAppend(items: set<Item>, a: seq<Req>, b: seq<Req>)
    requires InOrder(items, a) && InOrder(items + ReqItems(a), b)
    ensures InOrder(items, a + b)
  {
    hide Refs, ReqItems;
    var c := a + b;
    forall i | 0 <= i < |c| && c[i].PostEntry? ensures Refs(c[i].id) <= items + ReqItems(c[..i]) {
      if i < |a| {
        assert c[..i] == a[..i];
      } else {
        assert c[..i] == a + b[..i - |a|];
        ReqItemsAppend(a, b[..i - |a|]);
      }
    }
  }

  lemma InOrderPrefix(items: set<Item>, rs: seq<Req>, k: nat)
    requires InOrder(items, rs) && k <= |rs|
    ensures InOrder(items, rs[..k])
  {
    forall i | 0 <= i < k && rs[i].PostEntry? ensures Refs(rs[i].id) <= items + ReqItems(rs[..k][..i]) {
      assert rs[..k][..i] == rs[..i];
    }
  }

  lemma InOrderMore(items: set<Item>, more: set<Item>, rs: seq<Req>)
    requires InOrder(items, rs) && items <= more
    ensures InOrder(more, rs)
  {
  }

  lemma InOrderOne(items: set<Item>, r: Req)
    requires r.PostEntry? ==> Refs(r.id) <= items
    ensures InOrder(items, [r])
  {
    assert [r][..0] == [];
  }

  /** Deduplication keeps the order, if what is known is in the repo. */
  lemma {:induction false} AddInOrder(known: set<Item>, items: set<Item>, more: seq<Req>)
    requires known <= items && InOrder(items, more)
    ensures InOrder(items, Add(known, [], more))
  {
    if more != [] {
      var rest, r := more[..|more| - 1], more[|more| - 1];
      InOrderPrefix(items, more, |rest|);
      AddInOrder(known, items, rest);
      AddFacts(known, rest);
      var before := Add(known, [], rest);
      hide InOrder, Add, ReqItems, Refs;
      if ItemOf(r) !in known + ReqItems(before) {
        LastInOrder(items, more);
        InOrderOne(items + ReqItems(before), r);
        InOrderAppend(items, before, [r]);
      }
    }
  }

  lemma LastInOrder(items: set<Item>, rs: seq<Req>)
    requires InOrder(items, rs) && rs != []
    ensures rs[|rs| - 1].PostEntry? ==> Refs(rs[|rs| - 1].id) <= items + ReqItems(rs[..|rs| - 1])
  {
  }

  // What a node needs and what it gets.

  /** References without origin in another repo are in the target repo. */
  predicate Confirmed(repo: RepoName, items: set<Item>, n: Node) {
    match n
    case Lazy(_, id, _) => Foreign(repo, n) || EntryItem(id) in items
    case Obj(_, _, blob, _) => blob.BlobSha? && blob.b != NULL_SHA1 ==> Foreign(repo, n) || BlobItem(blob.b) in items
    case Tree(_, _, entries, _) =>
      forall s | s in entries ::
        match s
        case Raw(ref) => Foreign(repo, n) || EntryItem(ref.id) in items
        case Child(c) => Confirmed(repo, items, c)
  }

  /** The node and everything below it that the client knows is among `items`. */
  predicate Complete(items: set<Item>, n: Node) {
    && EntryItem(NodeId(n)) in items
    && match n
       case Lazy(_, _, _) => true
       case Obj(_, _, _, _) => Refs(NodeId(n)) <= items
       case Tree(_, _, entries, _) => forall s | s in entries :: SlotComplete(items, s)
  }

  predicate SlotComplete(items: set<Item>, s: Slot) {
    match s
    case Raw(ref) => EntryItem(ref.id) in items
    case Child(c) => Complete(items, c)
  }

  lemma {:induction false} CompleteLater(items: set<Item>, more: set<Item>, n: Node)
    requires Complete(items, n) && items <= more
    ensures Complete(more, n)
    decreases n
  {
    if n.Tree? {
      forall s | s in n.entries ensures SlotComplete(more, s) {
        if s.Child? {
          CompleteLater(items, more, s.node);
        }
      }
    }
  }

  lemma ObjectRefs(n: Node)
    requires n.Obj?
    ensures Refs(NodeId(n)) == if n.blob.NoBlob? || n.blob.b == NULL_SHA1 then {} else {BlobItem(n.blob.b)}
  {
  }

  /** A reference of a tree is the id of one of its entries. */
  lemma TreeRefOf(n: Node, x: Item) returns (j: nat)
    requires n.Tree? && x in Refs(NodeId(n))
    ensures j < |n.entries| && x == EntryItem(SlotRef(n.entries[j]).id)
  {
    SlotRefsAt(n.entries);
    var refs := SlotRefs(n.entries);
    var e :| e in refs && x == EntryItem(e.id);
    j :| 0 <= j < |refs| && refs[j] == e;
  }

  lemma ItemsOfSlot(repo: RepoName, n: Node, j: nat)
    requires n.Tree? && j < |n.entries|
    ensures ReqItems(SlotRequests(repo, n, j)) <= ReqItems(SlotsRequests(repo, n, |n.entries|))
    ensures ReqItems(SlotsRequests(repo, n, |n.entries|)) <= ReqItems(Requests(repo, n))
  {
    hide SlotRequests, ReqItems;
    SlotsPrefix(repo, n, j + 1, |n.entries|);
    var a, b := SlotsRequests(repo, n, j + 1), SlotsRequests(repo, n, |n.entries|);
    assert b == a + b[|a|..];
    ReqItemsAppend(a, b[|a|..]);
    ReqItemsAppend(SlotsRequests(repo, n, j), SlotRequests(repo, n, j));
    ReqItemsAppend(b, [PostEntry(NodeId(n))]);
  }

  lemma OwnItem(repo: RepoName, n: Node)
    ensures !n.Lazy? ==> PostEntry(NodeId(n)) in Requests(repo, n) && EntryItem(NodeId(n)) in ReqItems(Requests(repo, n))
    ensures n.Lazy? && Foreign(repo, n) ==> EntryItem(NodeId(n)) in ReqItems(Requests(repo, n))
  {
    hide SlotsRequests, BlobRequests;
    if !n.Lazy? {
      ItemIsIn(Requests(repo, n), PostEntry(NodeId(n)));
    } else if Foreign(repo, n) {
      ItemIsIn(Requests(repo, n), CopyEntry(n.id, n.repo.value));
    }
  }

  /** A confirmed node is complete once its requests are fulfilled. */
  lemma {:induction false} FulfilledIsComplete(repo: RepoName, items: set<Item>, n: Node)
    requires Confirmed(repo, items, n)
    ensures Complete(items + ReqItems(Requests(repo, n)), n)
    decreases n
  {
    var all := items + ReqItems(Requests(repo, n));
    OwnItem(repo, n);
    match n
    case Lazy(_, _, _) =>
    case Obj(_, _, blob, _) =>
      ObjectRefs(n);
      ReqItemsAppend(BlobRequests(repo, n), [PostEntry(NodeId(n))]);
      if BlobRequests(repo, n) != [] {
        ReqItemsOfOne(BlobRequests(repo, n)[0]);
      }
    case Tree(_, _, entries, _) =>
      hide SlotsRequests;
      forall s | s in entries ensures SlotComplete(all, s) {
        var j :| 0 <= j < |entries| && entries[j] == s;
        ItemsOfSlot(repo, n, j);
        hide Requests, ReqItems;
        SlotFulfilled(repo, items, n, j);
        if s.Child? {
          FulfilledIsComplete(repo, items, s.node);
          CompleteLater(items + ReqItems(Requests(repo, s.node)), all, s.node);
        }
      }
  }

  lemma SlotFulfilled(repo: RepoName, items: set<Item>, n: Node, j: nat)
    requires n.Tree? && j < |n.entries| && Confirmed(repo, items, n)
    ensures n.entries[j].Child? ==> Confirmed(repo, items, n.entries[j].node)
    ensures EntryItem(SlotRef(n.entries[j]).id) in items + ReqItems(SlotRequests(repo, n, j))
  {
    var s := n.entries[j];
    assert s in n.entries;
    match s
    case Raw(ref) =>
      if Foreign(repo, n) {
        ItemIsIn(SlotRequests(repo, n, j), CopyEntry(ref.id, n.repo.value));
      }
    case Child(c) => OwnItem(repo, c);
  }

  /** The requests of a confirmed node are in order. */
  lemma {:induction false} RequestsInOrder(repo: RepoName, items: set<Item>, n: Node)
    requires Confirmed(repo, items, n)
    ensures InOrder(items, Requests(repo, n))
    decreases n, 1
  {
    hide InOrder, ReqItems, Refs;
    match n
    case Lazy(_, id, _) =>
      if Foreign(repo, n) {
        InOrderOne(items, CopyEntry(id, n.repo.value));
      } else {
        NothingInOrder(items);
      }
    case Obj(_, _, blob, _) =>
      ObjectInOrder(repo, items, n);
    case Tree(_, _, entries, _) =>
      SlotsInOrder(repo, items, n, |entries|);
      var slots := SlotsRequests(repo, n, |entries|);
      forall x | x in Refs(NodeId(n)) ensures x in items + ReqItems(slots) {
        var j := TreeRefOf(n, x);
        SlotFulfilled(repo, items, n, j);
        ItemsOfSlot(repo, n, j);
      }
      InOrderOne(items + ReqItems(slots), PostEntry(NodeId(n)));
      InOrderAppend(items, slots, [PostEntry(NodeId(n))]);
  }

  lemma NothingInOrder(items: set<Item>)
    ensures InOrder(items, [])
  {
  }

  lemma ObjectInOrder(repo: RepoName, items: set<Item>, n: Node)
    requires n.Obj? && Confirmed(repo, items, n)
    ensures InOrder(items, Requests(repo, n))
  {
    var blobs := BlobRequests(repo, n);
    ObjectRefs(n);
    if blobs != [] {
      ReqItemsOfOne(blobs[0]);
      InOrderOne(items, blobs[0]);
    } else {
      NothingInOrder(items);
    }
    hide InOrder, Refs, ReqItems;
    InOrderOne(items + ReqItems(blobs), PostEntry(NodeId(n)));
    InOrderAppend(items, blobs, [PostEntry(NodeId(n))]);
  }

  lemma {:induction false} SlotsInOrder(repo: RepoName, items: set<Item>, n: Node, i: nat)
    requires n.Tree? && i <= |n.entries| && Confirmed(repo, items, n)
    ensures InOrder(items, SlotsRequests(repo, n, i))
    decreases n, 0, i
  {
    hide InOrder, ReqItems, Refs;
    if i == 0 {
      NothingInOrder(items);
    } else {
      SlotsInOrder(repo, items, n, i - 1);
      var a, b := SlotsRequests(repo, n, i - 1), SlotRequests(repo, n, i - 1);
      SlotFulfilled(repo, items, n, i - 1);
      match n.entries[i - 1] {
        case Raw(ref) =>
          if b == [] {
            NothingInOrder(items);
          } else {
            InOrderOne(items, b[0]);
          }
        case Child(c) => RequestsInOrder(repo, items, c);
      }
      InOrderMore(items, items + ReqItems(a), b);
      InOrderAppend(items, a, b);
    }
  }

  // What posting does to the node.

  /** Posting a loaded node moves it to the repo of the stream. */
  function Mark(repo: RepoName, n: Node): Node {
    match n
    case Lazy(_, _, _) => n
    case Obj(name, meta, blob, _) => Obj(name, meta, blob, Some(repo))
    case Tree(name, meta, entries, _) => Tree(name, meta, MarkSlots(repo, entries), Some(repo))
  }

  function MarkSlots(repo: RepoName, entries: seq<Slot>): (r: seq<Slot>)
    ensures |r| == |entries| && forall i :: 0 <= i < |r| ==> r[i] == MarkSlot(repo, entries[i])
  {
    if entries == [] then []
    else MarkSlots(repo, entries[..|entries| - 1]) + [MarkSlot(repo, entries[|entries| - 1])]
  }

  function MarkSlot(repo: RepoName, s: Slot): Slot {
    match s
    case Raw(_) => s
    case Child(c) => Child(Mark(repo, c))
  }

  function Minus(a: nat, b: nat): nat {
    if a < b then 0 else a - b
  }

  /** The node after the first `k` of its requests: a loaded node has moved exactly if all of
      its requests are among them. */
  function MarkTo(repo: RepoName, n: Node, k: nat): Node
    decreases n
  {
    if k >= |Requests(repo, n)| then Mark(repo, n)
    else
      match n
      case Tree(name, meta, entries, origin) =>
        Tree(name, meta, seq(|entries|, j requires 0 <= j < |entries| => MarkSlotTo(repo, n, j, k)), origin)
      case _ => n
  }

  function MarkSlotTo(repo: RepoName, n: Node, j: nat, k: nat): Slot
    requires n.Tree? && j < |n.entries|
    decreases n, 0
  {
    match n.entries[j]
    case Raw(_) => n.entries[j]
    case Child(c) => Child(MarkTo(repo, c, Minus(k, |SlotsRequests(repo, n, j)|)))
  }

  /** Before its first request nothing has moved. */
  lemma {:induction false} MarkNothing(repo: RepoName, n: Node)
    ensures MarkTo(repo, n, 0) == n
    decreases n
  {
    if n.Tree? {
      var m := MarkTo(repo, n, 0);
      forall j | 0 <= j < |n.entries| ensures m.entries[j] == n.entries[j] {
        assert m.entries[j] == MarkSlotTo(repo, n, j, 0);
        if n.entries[j].Child? {
          MarkNothing(repo, n.entries[j].node);
        }
      }
      assert m.entries == n.entries;
    }
  }

  /** An entry has moved if all of its requests have been made, and not if none has. */
  lemma SlotMarked(repo: RepoName, n: Node, j: nat, k: nat)
    requires n.Tree? && j < |n.entries|
    ensures k >= |SlotsRequests(repo, n, j + 1)| ==> MarkSlotTo(repo, n, j, k) == MarkSlot(repo, n.entries[j])
    ensures k <= |SlotsRequests(repo, n, j)| ==> MarkSlotTo(repo, n, j, k) == n.entries[j]
  {
    if n.entries[j].Child? {
      var c, k1 := n.entries[j].node, Minus(k, |SlotsRequests(repo, n, j)|);
      MarkNothing(repo, c);
      assert SlotRequests(repo, n, j) == Requests(repo, c);
      assert k >= |SlotsRequests(repo, n, j + 1)| ==> k1 >= |Requests(repo, c)|;
      assert k1 >= |Requests(repo, c)| ==> MarkTo(repo, c, k1) == Mark(repo, c);
    }
  }

  lemma MarkedEntries(repo: RepoName, n: Node, k: nat)
    requires n.Tree?
    ensures var m := MarkTo(repo, n, k);
            && m.Tree? && |m.entries| == |n.entries| && m.name == n.name && m.meta == n.meta
            && m.repo == (if k >= |Requests(repo, n)| then Some(repo) else n.repo)
            && forall j :: 0 <= j < |n.entries| ==> m.entries[j] == MarkSlotTo(repo, n, j, k)
  {
    var m := MarkTo(repo, n, k);
    if k >= |Requests(repo, n)| {
      forall j | 0 <= j < |n.entries| ensures m.entries[j] == MarkSlotTo(repo, n, j, k) {
        SlotsPrefix(repo, n, j + 1, |n.entries|);
        SlotMarked(repo, n, j, k);
      }
    }
  }

  /** A tree whose first `i` entries have moved, whose entry `i` has got to `k1`, and whose
      other entries are untouched. */
  lemma MarkedUpTo(repo: RepoName, n: Node, entries': seq<Slot>, i: nat, k1: nat)
    requires n.Tree? && i <= |n.entries| == |entries'|
    requires i < |n.entries| ==> k1 <= |SlotRequests(repo, n, i)|
    requires i == |n.entries| ==> k1 == 0
    requires forall j :: 0 <= j < i ==> entries'[j] == MarkSlot(repo, n.entries[j])
    requires i < |n.entries| ==> entries'[i] == MarkSlotTo(repo, n, i, |SlotsRequests(repo, n, i)| + k1)
    requires forall j :: i < j < |n.entries| ==> entries'[j] == n.entries[j]
    ensures var k := |SlotsRequests(repo, n, i)| + k1;
            k < |Requests(repo, n)| && MarkTo(repo, n, k) == Tree(n.name, n.meta, entries', n.repo)
  {
    var k := |SlotsRequests(repo, n, i)| + k1;
    if i < |n.entries| {
      SlotsPrefix(repo, n, i + 1, |n.entries|);
    }
    MarkedEntries(repo, n, k);
    var m := MarkTo(repo, n, k);
    hide MarkTo, MarkSlotTo, SlotRequests;
    forall j | 0 <= j < |n.entries| ensures m.entries[j] == entries'[j] {
      SlotMarked(repo, n, j, k);
      if j < i {
        SlotsPrefix(repo, n, j + 1, i);
      } else if j > i {
        SlotsPrefix(repo, n, i + 1, j);
      }
    }
    assert m.entries == entries';
  }

  // Posting again what failed posts have left.

  /** `m` is `n` after any number of posts: some loaded nodes have moved to the repo. */
  ghost predicate Moved(repo: RepoName, n: Node, m: Node)
    decreases n
  {
    match n
    case Lazy(_, _, _) => m == n
    case Obj(name, meta, blob, origin) =>
      m.Obj? && m == Obj(name, meta, blob, m.repo) && (m.repo == origin || m.repo == Some(repo))
    case Tree(name, meta, entries, origin) =>
      && m.Tree? && m.name == name && m.meta == meta && |m.entries| == |entries|
      && (m.repo == origin || m.repo == Some(repo))
      && forall j :: 0 <= j < |entries| ==> SlotMoved(repo, n, m, j)
  }

  ghost predicate SlotMoved(repo: RepoName, n: Node, m: Node, j: nat)
    requires n.Tree? && m.Tree? && j < |n.entries| == |m.entries|
    decreases n, 0
  {
    match n.entries[j]
    case Raw(_) => m.entries[j] == n.entries[j]
    case Child(c) => m.entries[j].Child? && Moved(repo, c, m.entries[j].node)
  }

  lemma {:induction false} MovedNowhere(repo: RepoName, n: Node)
    ensures Moved(repo, n, n)
    decreases n
  {
    if n.Tree? {
      forall j | 0 <= j < |n.entries| ensures SlotMoved(repo, n, n, j) {
        if n.entries[j].Child? {
          MovedNowhere(repo, n.entries[j].node);
        }
      }
    }
  }

  lemma {:induction false} MovedTwice(repo: RepoName, n: Node, m: Node, k: Node)
    requires Moved(repo, n, m) && Moved(repo, m, k)
    ensures Moved(repo, n, k)
    decreases n
  {
    if n.Tree? {
      forall j | 0 <= j < |n.entries| ensures SlotMoved(repo, n, k, j) {
        assert SlotMoved(repo, n, m, j) && SlotMoved(repo, m, k, j);
        if n.entries[j].Child? {
          MovedTwice(repo, n.entries[j].node, m.entries[j].node, k.entries[j].node);
        }
      }
    }
  }

  lemma {:induction false} MovedKeepsId(repo: RepoName, n: Node, m: Node)
    requires Moved(repo, n, m)
    ensures NodeId(m) == NodeId(n) && NodeKind(m) == NodeKind(n)
    decreases n
  {
    if n.Tree? {
      forall j | 0 <= j < |n.entries| ensures SlotRef(m.entries[j]) == SlotRef(n.entries[j]) {
        assert SlotMoved(repo, n, m, j);
        if n.entries[j].Child? {
          MovedKeepsId(repo, n.entries[j].node, m.entries[j].node);
        }
      }
      SameRefsSameId(m.entries, n.entries);
    }
  }

  lemma {:induction false} MarkMoves(repo: RepoName, n: Node)
    ensures Moved(repo, n, Mark(repo, n))
    decreases n
  {
    if n.Tree? {
      var m := Mark(repo, n);
      forall j | 0 <= j < |n.entries| ensures SlotMoved(repo, n, m, j) {
        if n.entries[j].Child? {
          MarkMoves(repo, n.entries[j].node);
        }
      }
    }
  }

  /** A post, however far it gets, only moves nodes. */
  lemma {:induction false} MarkToMoves(repo: RepoName, n: Node, k: nat)
    ensures Moved(repo, n, MarkTo(repo, n, k))
    decreases n
  {
    if k >= |Requests(repo, n)| {
      MarkMoves(repo, n);
    } else if n.Tree? {
      hide Requests;
      var m := MarkTo(repo, n, k);
      forall j | 0 <= j < |n.entries| ensures SlotMoved(repo, n, m, j) {
        assert m.entries[j] == MarkSlotTo(repo, n, j, k);
        if n.entries[j].Child? {
          MarkToMoves(repo, n.entries[j].node, Minus(k, |SlotsRequests(repo, n, j)|));
        }
      }
    } else {
      MovedNowhere(repo, n);
    }
  }

  /** A moved node asks for the same entries to be sent with content. */
  lemma {:induction false} MovedPostsSame(repo: RepoName, n: Node, m: Node, id: Id)
    requires Moved(repo, n, m) && PostEntry(id) in Requests(repo, n)
    ensures PostEntry(id) in Requests(repo, m)
    decreases n
  {
    MovedKeepsId(repo, n, m);
    if n.Tree? {
      if PostEntry(id) in SlotsRequests(repo, n, |n.entries|) {
        var j := SlotOf(repo, n, |n.entries|, PostEntry(id));
        assert SlotMoved(repo, n, m, j);
        assert n.entries[j].Child? by { RawSendsNothing(repo, n, j, id); }
        MovedPostsSame(repo, n.entries[j].node, m.entries[j].node, id);
        SlotIsIn(repo, m, j, PostEntry(id));
      } else {
        OwnItem(repo, m);
      }
    }
  }

  lemma {:induction false} MovedBackPostsSame(repo: RepoName, n: Node, m: Node, id: Id)
    requires Moved(repo, n, m) && PostEntry(id) in Requests(repo, m)
    ensures PostEntry(id) in Requests(repo, n)
    decreases n
  {
    MovedKeepsId(repo, n, m);
    if n.Tree? {
      if PostEntry(id) in SlotsRequests(repo, m, |m.entries|) {
        var j := SlotOf(repo, m, |m.entries|, PostEntry(id));
        assert SlotMoved(repo, n, m, j);
        RawSendsNothing(repo, m, j, id);
        MovedBackPostsSame(repo, n.entries[j].node, m.entries[j].node, id);
        SlotIsIn(repo, n, j, PostEntry(id));
      } else {
        OwnItem(repo, n);
      }
    }
  }

  lemma RawSendsNothing(repo: RepoName, n: Node, j: nat, id: Id)
    requires n.Tree? && j < |n.entries| && PostEntry(id) in SlotRequests(repo, n, j)
    ensures n.entries[j].Child? && PostEntry(id) in Requests(repo, n.entries[j].node)
  {
    hide Requests;
  }

  /** Moving nodes to the repo dropped the request for item `x`, which entry `id` refers to. */
  ghost predicate DropsCopy(repo: RepoName, n: Node, m: Node, id: Id, x: Item)
    requires Moved(repo, n, m)
    decreases n
  {
    match n
    case Lazy(_, _, _) => false
    case Obj(_, _, blob, _) =>
      && Foreign(repo, n) && !Foreign(repo, m) && id == NodeId(n)
      && blob.BlobSha? && blob.b != NULL_SHA1 && x == BlobItem(blob.b)
    case Tree(_, _, entries, _) =>
      || (&& Foreign(repo, n) && !Foreign(repo, m) && id == NodeId(n)
          && exists j :: 0 <= j < |entries| && entries[j].Raw? && x == EntryItem(entries[j].ref.id))
      || DropsBelow(repo, n, m, id, x)
  }

  ghost predicate DropsBelow(repo: RepoName, n: Node, m: Node, id: Id, x: Item)
    requires n.Tree? && Moved(repo, n, m)
    decreases n, 0
  {
    exists j :: 0 <= j < |n.entries| && SlotMoved(repo, n, m, j) && n.entries[j].Child? && DropsCopy(repo, n.entries[j].node, m.entries[j].node, id, x)
  }

  lemma {:induction false} DroppedIsRef(repo: RepoName, n: Node, m: Node, id: Id, x: Item)
    requires Moved(repo, n, m) && DropsCopy(repo, n, m, id, x)
    ensures x in Refs(id)
    decreases n
  {
    if n.Tree? {
      if DropsBelow(repo, n, m, id, x) {
        var j :| 0 <= j < |n.entries| && SlotMoved(repo, n, m, j) && n.entries[j].Child? && DropsCopy(repo, n.entries[j].node, m.entries[j].node, id, x);
        DroppedIsRef(repo, n.entries[j].node, m.entries[j].node, id, x);
      } else {
        SlotRefsAt(n.entries);
        var j :| 0 <= j < |n.entries| && n.entries[j].Raw? && x == EntryItem(n.entries[j].ref.id);
        assert SlotRefs(n.entries)[j] == n.entries[j].ref;
      }
    }
  }

  /** What the requests of a moved node refer to is confirmed, requested or dropped. */
  lemma {:induction false} RefsCovered(repo: RepoName, items: set<Item>, n: Node, m: Node, id: Id, x: Item)
    requires Moved(repo, n, m) && Confirmed(repo, items, n) && PostEntry(id) in Requests(repo, m) && x in Refs(id)
    ensures x in items + ReqItems(Requests(repo, m)) || DropsCopy(repo, n, m, id, x)
    decreases n
  {
    match n
    case Lazy(_, _, _) =>
    case Obj(_, _, _, _) =>
      ObjectRefs(n);
      assert id == NodeId(n);
      if BlobRequests(repo, m) != [] {
        ItemIsIn(Requests(repo, m), BlobRequests(repo, m)[0]);
      }
    case Tree(_, _, entries, _) =>
      MovedKeepsId(repo, n, m);
      if PostEntry(id) in SlotsRequests(repo, m, |m.entries|) {
        var j := SlotOf(repo, m, |m.entries|, PostEntry(id));
        ItemsOfSlot(repo, m, j);
        RawSendsNothing(repo, m, j, id);
        assert SlotMoved(repo, n, m, j) && entries[j] in entries;
        RefsCovered(repo, items, entries[j].node, m.entries[j].node, id, x);
      } else {
        hide SlotsRequests;
        assert id == NodeId(n);
        hide Refs;
        TreeCovered(repo, items, n, m, x);
      }
  }

  lemma TreeCovered(repo: RepoName, items: set<Item>, n: Node, m: Node, x: Item)
    requires n.Tree? && Moved(repo, n, m) && Confirmed(repo, items, n) && x in Refs(NodeId(n))
    ensures x in items + ReqItems(Requests(repo, m)) || DropsCopy(repo, n, m, NodeId(n), x)
  {
    var j := TreeRefOf(n, x);
    var s := n.entries[j];
    assert s in n.entries && SlotMoved(repo, n, m, j);
    ItemsOfSlot(repo, m, j);
    hide Requests, SlotsRequests, Refs;
    match s
    case Raw(ref) =>
      if Foreign(repo, m) {
        ItemIsIn(SlotRequests(repo, m, j), CopyEntry(ref.id, m.repo.value));
      }
    case Child(c) =>
      MovedKeepsId(repo, c, m.entries[j].node);
      OwnItem(repo, m.entries[j].node);
  }

  // The log of a repo: everything that has reached it, in order.

  /** What a post adds to the log: requests of the post, for items that the repo lacked. */
  ghost predicate Logged(base: set<Item>, log0: seq<Req>, log: seq<Req>, reqs: seq<Req>) {
    log0 <= log && forall i :: |log0| <= i < |log| ==> log[i] in reqs && ItemOf(log[i]) !in base + ReqItems(log0)
  }

  /** No entry that was sent refers to something that the repo lacks. */
  ghost predicate NoDangling(base: set<Item>, log: seq<Req>) {
    forall r | r in log && r.PostEntry? :: Refs(r.id) <= base + ReqItems(log)
  }

  lemma OrderedIsNotDangling(base: set<Item>, log: seq<Req>)
    requires InOrder(base, log)
    ensures NoDangling(base, log)
  {
    hide Refs;
    forall r | r in log && r.PostEntry? ensures Refs(r.id) <= base + ReqItems(log) {
      var i :| 0 <= i < |log| && log[i] == r;
      ReqItemsAppend(log[..i], log[i..]);
      assert log == log[..i] + log[i..];
    }
  }

  /** A post that succeeds has sent exactly the requests for what the repo lacked. */
  lemma SentExactly(base: set<Item>, log0: seq<Req>, log: seq<Req>, reqs: seq<Req>, r: Req)
    requires Logged(base, log0, log, reqs) && DistinctItems(reqs) && r in reqs
    requires ItemOf(r) in base + ReqItems(log)
    ensures r in log[|log0|..] <==> ItemOf(r) !in base + ReqItems(log0)
  {
    var sent := log[|log0|..];
    assert log == log0 + sent;
    ReqItemsAppend(log0, sent);
    if ItemOf(r) !in base + ReqItems(log0) {
      var i :| 0 <= i < |sent| && ItemOf(sent[i]) == ItemOf(r);
      assert sent[i] == log[|log0| + i];
      SameItemSameReq(reqs, sent[i], r);
    }
    if r in sent {
      var i :| 0 <= i < |sent| && sent[i] == r;
      assert sent[i] == log[|log0| + i];
    }
  }

  /** The condition for posting again: of an entry that an earlier attempt has sent or that
      this one will send, every copy that moving has dropped is in the repo or requested. */
  ghost predicate CopiesArrive(
    repo: RepoName, n: Node, m: Node, sent: seq<Req>, reqs: seq<Req>, before: set<Item>)
    requires Moved(repo, n, m)
  {
    forall id, x ::
      DropsCopy(repo, n, m, id, x) && (PostEntry(id) in sent || (PostEntry(id) in reqs && EntryItem(id) !in before)) ==>
        x in before + ReqItems(reqs)
  }

  /** A confirmed node `n` was posted any number of times, which took the log from `log0` to
      `middle` and left `m`.  Then `m` is posted successfully.  No entry dangles afterwards if
      and only if the copies arrive, which can be told before that last post. */
  lemma RetryDanglesExactly(
    repo: RepoName, n: Node, m: Node, known: set<Item>, first: set<Item>,
    base: set<Item>, log0: seq<Req>, middle: seq<Req>, log: seq<Req>, reqs: seq<Req>)
    requires Confirmed(repo, first, n) && Moved(repo, n, m) && NoDangling(base, log0)
    requires log0 <= middle && forall r | r in middle[|log0|..] && r.PostEntry? :: r in Requests(repo, n)
    requires first + known <= base + ReqItems(middle) && reqs == Add(known, [], Requests(repo, m))
    requires Logged(base, middle, log, reqs) && ReqItems(reqs) <= base + ReqItems(log)
    ensures NoDangling(base, log) <==>
            CopiesArrive(repo, n, m, middle[|log0|..], reqs, base + ReqItems(middle))
  {
    var all := Requests(repo, m);
    var before, after := base + ReqItems(middle), base + ReqItems(log);
    AddFacts(known, all);
    LogGrowth(base, middle, log, reqs);
    LogSplit(log0, middle);
    hide Requests, Add, ReqItems, DropsCopy, Refs, Moved;
    if NoDangling(base, log) {
      forall id, x | DropsCopy(repo, n, m, id, x) &&
        (PostEntry(id) in middle[|log0|..] || (PostEntry(id) in reqs && EntryItem(id) !in before))
        ensures x in after
      {
        if PostEntry(id) in reqs && EntryItem(id) !in before {
          ItemIsIn(reqs, PostEntry(id));
          SentExactly(base, middle, log, reqs, PostEntry(id));
        }
        DroppedIsRef(repo, n, m, id, x);
      }
    }
    if CopiesArrive(repo, n, m, middle[|log0|..], reqs, before) {
      forall r | r in log && r.PostEntry? ensures Refs(r.id) <= after {
        if r !in log0 {
          if r in middle[|log0|..] {
            MovedPostsSame(repo, n, m, r.id);
          } else {
            assert r in log[|middle|..];
            NewIsRequested(base, middle, log, reqs, r);
          }
          forall x | x in Refs(r.id) ensures x in after {
            RefsCovered(repo, first, n, m, r.id, x);
          }
        }
      }
    }
  }

  /** A successful post adds the items that it requested. */
  lemma LogGrowth(base: set<Item>, middle: seq<Req>, log: seq<Req>, reqs: seq<Req>)
    requires Logged(base, middle, log, reqs) && ReqItems(reqs) <= base + ReqItems(log)
    ensures log == middle + log[|middle|..] && ReqItems(middle) <= ReqItems(log)
    ensures base + ReqItems(log) == base + ReqItems(middle) + ReqItems(reqs)
  {
    var sent := log[|middle|..];
    assert log == middle + sent;
    ReqItemsAppend(middle, sent);
    forall q | q in ReqItems(sent) ensures q in ReqItems(reqs) {
      var i :| 0 <= i < |sent| && ItemOf(sent[i]) == q;
      assert sent[i] == log[|middle| + i];
      ItemIsIn(reqs, sent[i]);
    }
  }

  lemma LogSplit(log0: seq<Req>, middle: seq<Req>)
    requires log0 <= middle
    ensures middle == log0 + middle[|log0|..] && ReqItems(log0) <= ReqItems(middle)
  {
    assert middle == log0 + middle[|log0|..];
    ReqItemsAppend(log0, middle[|log0|..]);
  }

  lemma NewIsRequested(base: set<Item>, middle: seq<Req>, log: seq<Req>, reqs: seq<Req>, r: Req)
    requires Logged(base, middle, log, reqs) && r in log[|middle|..]
    ensures r in reqs && ItemOf(r) !in base + ReqItems(middle)
  {
    var i :| 0 <= i < |log[|middle|..]| && log[|middle|..][i] == r;
    assert log[|middle| + i] == r;
  }
}
