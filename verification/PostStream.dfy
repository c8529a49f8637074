/** Posting trees through a buffered, deduplicating stream, to a repo whose calls may fail. */
module PostStream {
  import opened Wrappers
  import opened Merkle
  import opened Entries
  import opened PostRequests

  const POST_BUFFER_SIZE := 10000
  const POST_BUFFER_SIZE_LIMIT := 200000

  type Size = Req -> nat

  function Total(size: Size, rs: seq<Req>): nat {
    if rs == [] then 0 else Total(size, rs[..|rs| - 1]) + size(rs[|rs| - 1])
  }

  /** The total size is within the batch size, or it is a single entry within the limit. */
  predicate WithinBounds(size: Size, rs: seq<Req>) {
    Total(size, rs) <= POST_BUFFER_SIZE || (|rs| == 1 && Total(size, rs) <= POST_BUFFER_SIZE_LIMIT)
  }

  // Parts of a sequence of requests.

  function Sends(rs: seq<Req>): seq<Req> {
    if rs == [] then []
    else if rs[|rs| - 1].Upload? then Sends(rs[..|rs| - 1])
    else Sends(rs[..|rs| - 1]) + [rs[|rs| - 1]]
  }

  function Uploads(rs: seq<Req>): seq<Req> {
    if rs == [] then []
    else if rs[|rs| - 1].Upload? then Uploads(rs[..|rs| - 1]) + [rs[|rs| - 1]]
    else Uploads(rs[..|rs| - 1])
  }

  /** The requests for items that are not among `items`. */
  function Lacking(items: set<Item>, rs: seq<Req>): seq<Req> {
    if rs == [] then []
    else if ItemOf(rs[|rs| - 1]) in items then Lacking(items, rs[..|rs| - 1])
    else Lacking(items, rs[..|rs| - 1]) + [rs[|rs| - 1]]
  }

  function ItemSeq(rs: seq<Req>): seq<Item> {
    seq(|rs|, i requires 0 <= i < |rs| => ItemOf(rs[i]))
  }

  lemma {:induction false} PartsAreIn(items: set<Item>, rs: seq<Req>, r: Req)
    ensures r in Lacking(items, rs) <==> r in rs && ItemOf(r) !in items
    ensures r in Sends(rs) <==> r in rs && !r.Upload?
    ensures r in Uploads(rs) <==> r in rs && r.Upload?
  {
    if rs != [] {
      PartsAreIn(items, rs[..|rs| - 1], r);
      assert rs == rs[..|rs| - 1] + [rs[|rs| - 1]];
    }
  }

  /** A repo that gets what it lacks has everything. */
  lemma LackingItems(items: set<Item>, rs: seq<Req>)
    ensures var lacking := Lacking(items, rs);
            items + ReqItems(Uploads(lacking) + Sends(lacking)) == items + ReqItems(rs)
  {
    var lacking := Lacking(items, rs);
    var parts := Uploads(lacking) + Sends(lacking);
    forall r ensures r in parts <==> r in rs && ItemOf(r) !in items {
      PartsAreIn(items, rs, r);
      PartsAreIn(items, lacking, r);
    }
    hide Lacking, Uploads, Sends;
    forall q | q in ReqItems(rs) && q !in items ensures q in ReqItems(parts) {
      var k :| 0 <= k < |rs| && ItemOf(rs[k]) == q;
      ItemIsIn(parts, rs[k]);
    }
    forall q | q in ReqItems(parts) ensures q in ReqItems(rs) {
      var k :| 0 <= k < |parts| && ItemOf(parts[k]) == q;
      ItemIsIn(rs, parts[k]);
    }
  }

  lemma {:induction false} LackingIsSmaller(size: Size, items: set<Item>, rs: seq<Req>)
    ensures Total(size, Sends(Lacking(items, rs))) <= Total(size, Sends(rs))
    ensures |Sends(Lacking(items, rs))| <= |Sends(rs)|
  {
    if rs != [] {
      var rest, r := rs[..|rs| - 1], rs[|rs| - 1];
      assert rs == rest + [r];
      LackingIsSmaller(size, items, rest);
      LackingOneMore(items, rest, r);
      hide Total, Sends, Lacking;
      SendsOneMore(rest, r);
      SendsOneMore(Lacking(items, rest), r);
      TotalOneMore(size, Sends(rest), r);
      TotalOneMore(size, Sends(Lacking(items, rest)), r);
    }
  }

  lemma LackingOneMore(items: set<Item>, rs: seq<Req>, r: Req)
    ensures Lacking(items, rs + [r]) == if ItemOf(r) in items then Lacking(items, rs) else Lacking(items, rs) + [r]
  {
    assert (rs + [r])[..|rs|] == rs;
  }

  lemma SendsOneMore(rs: seq<Req>, r: Req)
    ensures Sends(rs + [r]) == if r.Upload? then Sends(rs) else Sends(rs) + [r]
  {
    assert (rs + [r])[..|rs|] == rs;
  }

  lemma TotalOneMore(size: Size, rs: seq<Req>, r: Req)
    ensures Total(size, rs + [r]) == Total(size, rs) + size(r)
  {
    assert (rs + [r])[..|rs|] == rs;
  }

  lemma NothingLacks(items: set<Item>)
    ensures Lacking(items, []) == [] && Uploads([]) == [] && Sends([]) == []
  {
  }

  lemma NothingToSend(size: Size)
    ensures Sends([]) == [] && Total(size, []) == 0 && ReqItems([]) == {}
  {
  }

  /** What a flush sends is within the bounds if the queue is. */
  lemma LackingWithinBounds(size: Size, items: set<Item>, rs: seq<Req>)
    requires WithinBounds(size, Sends(rs))
    ensures WithinBounds(size, Sends(Lacking(items, rs)))
  {
    LackingIsSmaller(size, items, rs);
  }

  /** Leaving out what exists and uploading blobs first keeps the order of references. */
  lemma {:induction false} LackingInOrder(items: set<Item>, rs: seq<Req>)
    requires InOrder(items, rs)
    ensures var lacking := Lacking(items, rs);
            InOrder(items + ReqItems(Uploads(lacking)), Sends(lacking))
  {
    if rs != [] {
      var rest, r := rs[..|rs| - 1], rs[|rs| - 1];
      InOrderPrefix(items, rs, |rest|);
      LackingInOrder(items, rest);
      LackingItems(items, rest);
      LastInOrder(items, rs);
      var before, after := Lacking(items, rest), Lacking(items, rs);
      if ItemOf(r) !in items {
        SendsOneMore(before, r);
        UploadsOneMore(before, r);
        ReqItemsAppend(Uploads(before), Sends(before));
        ReqItemsAppend(Uploads(before), [r]);
        hide InOrder, ReqItems, Uploads, Sends, Lacking, Refs;
        if r.Upload? {
          InOrderMore(items + ReqItems(Uploads(before)), items + ReqItems(Uploads(after)), Sends(before));
        } else {
          InOrderOne(items + ReqItems(Uploads(before)) + ReqItems(Sends(before)), r);
          InOrderAppend(items + ReqItems(Uploads(before)), Sends(before), [r]);
        }
      }
    }
  }

  lemma UploadsOneMore(rs: seq<Req>, r: Req)
    ensures Uploads(rs + [r]) == if r.Upload? then Uploads(rs) + [r] else Uploads(rs)
  {
    assert (rs + [r])[..|rs|] == rs;
  }

  lemma UploadsInOrder(items: set<Item>, rs: seq<Req>)
    requires forall r | r in rs :: r.Upload?
    ensures InOrder(items, rs)
  {
    assert forall i :: 0 <= i < |rs| ==> rs[i] in rs;
  }

  // The repo.

  /** How the calls of one flush fail.  Uploads run in parallel: any of them may be done.  A
      bulk post may have taken effect in part. */
  datatype Fault = NoFault | StatFails | UploadFails(done: seq<BlobId>) | PostFails(n: nat)

  class RemoteRepo {
    const name: RepoName
    const size: Size
    const base: set<Item>
    const faults: nat -> Fault
    /** What has reached the repo on the server, in order, on top of `base`. */
    var log: seq<Req>
    var flushes: nat
    var knownEntries: set<Id>
    var knownBlobs: set<BlobId>

    function Items(): set<Item>
      reads this
    {
      base + ReqItems(log)
    }

    ghost function Known(): set<Item>
      reads this
    {
      (set id | id in knownEntries :: EntryItem(id)) + (set b | b in knownBlobs :: BlobItem(b))
    }

    /** The server has confirmed what is known. */
    ghost predicate Valid()
      reads this
    {
      Known() <= Items()
    }

    constructor (name: RepoName, size: Size, base: set<Item>, faults: nat -> Fault)
      ensures Valid() && this.name == name && this.size == size && this.base == base && this.faults == faults
      ensures log == [] && flushes == 0 && Known() == {}
    {
      this.name, this.size, this.base, this.faults := name, size, base, faults;
      log, flushes, knownEntries, knownBlobs := [], 0, {}, {};
    }

    /** The records of the queued items that exist. */
    method Stat(queue: seq<Item>, fault: Fault) returns (ok: bool, present: set<Item>)
      requires Valid()
      modifies this`knownEntries
      ensures Valid() && ok == !fault.StatFails?
      ensures present == set q | q in queue && q in Items()
      ensures old(Known()) <= Known() && forall q | q in Known() :: q in old(Known()) || q in queue
    {
      present := set q | q in queue && q in Items();
      ok := !fault.StatFails?;
      if ok {
        knownEntries := knownEntries + set q | q in present && q.EntryItem? :: q.id;
      }
    }

    method UploadBlobs(blobs: seq<Req>, fault: Fault) returns (ok: bool)
      requires Valid() && forall r | r in blobs :: r.Upload?
      modifies this`log
      ensures Valid() && ok == !fault.UploadFails?
      ensures ok ==> log == old(log) + blobs
      ensures exists part :: log == old(log) + part && forall r | r in part :: r in blobs
    {
      ghost var log0 := log;
      if fault.UploadFails? {
        var done := fault.done;
        var part: seq<Req> := [];
        for i := 0 to |done|
          invariant forall r | r in part :: r in blobs
        {
          if Upload(done[i]) in blobs {
            part := part + [Upload(done[i])];
          }
        }
        ReqItemsAppend(log, part);
        log := log + part;
        return false;
      }
      ReqItemsAppend(log, blobs);
      log := log + blobs;
      return true;
    }

    /** A bulk post is within the size bounds, and the expected answers align with it. */
    method PostBulk(bulk: seq<Req>, expected: seq<Item>, fault: Fault) returns (ok: bool)
      requires Valid() && WithinBounds(size, bulk) && expected == ItemSeq(bulk)
      modifies this`log, this`knownEntries
      ensures Valid() && ok == !fault.PostFails?
      ensures ok ==> log == old(log) + bulk
      ensures exists n :: 0 <= n <= |bulk| && log == old(log) + bulk[..n]
      ensures old(Known()) <= Known() && forall q | q in Known() :: q in old(Known()) || q in ReqItems(bulk)
    {
      if fault.PostFails? {
        var n := if fault.n < |bulk| then fault.n else |bulk|;
        ReqItemsAppend(log, bulk[..n]);
        log := log + bulk[..n];
        return false;
      }
      ReqItemsAppend(log, bulk);
      assert bulk[..|bulk|] == bulk;
      log := log + bulk;
      knownEntries := knownEntries + set q | q in ReqItems(bulk) && q.EntryItem? :: q.id;
      return true;
    }
  }

  // The tables of a stream.

  datatype Tables = Tables(
    entries: set<Id>, copyEntries: map<Id, RepoName>, blobs: set<BlobId>, copyBlobs: map<BlobId, RepoName>)

  predicate Registered(t: Tables, q: Item) {
    match q
    case EntryItem(id) => id in t.entries || id in t.copyEntries
    case BlobItem(b) => b in t.blobs || b in t.copyBlobs
  }

  function ReqOf(t: Tables, q: Item): Req
    requires Registered(t, q)
  {
    match q
    case EntryItem(id) => if id in t.entries then PostEntry(id) else CopyEntry(id, t.copyEntries[id])
    case BlobItem(b) => if b in t.blobs then Upload(b) else CopyBlob(b, t.copyBlobs[b])
  }

  function Register(t: Tables, r: Req): Tables {
    match r
    case PostEntry(id) => t.(entries := t.entries + {id})
    case CopyEntry(id, origin) => t.(copyEntries := t.copyEntries[id := origin])
    case Upload(b) => t.(blobs := t.blobs + {b})
    case CopyBlob(b, origin) => t.(copyBlobs := t.copyBlobs[b := origin])
  }

  /** The tables hold the requests `reqs`. */
  ghost predicate TablesMatch(t: Tables, reqs: seq<Req>) {
    && (forall r | r in reqs :: Registered(t, ItemOf(r)) && ReqOf(t, ItemOf(r)) == r)
    && (forall q | Registered(t, q) :: q in ReqItems(reqs))
  }

  lemma RegisterMatches(t: Tables, reqs: seq<Req>, r: Req)
    requires TablesMatch(t, reqs) && ItemOf(r) !in ReqItems(reqs)
    ensures TablesMatch(Register(t, r), reqs + [r])
  {
    ReqItemsAppend(reqs, [r]);
    ReqItemsOfOne(r);
    forall r' | r' in reqs ensures ItemOf(r') != ItemOf(r) {
      ItemIsIn(reqs, r');
    }
    hide ReqItems;
  }

  lemma QueuedRequest(t: Tables, reqs: seq<Req>, j: nat)
    requires TablesMatch(t, reqs) && j < |reqs|
    ensures Registered(t, ItemOf(reqs[j])) && ReqOf(t, ItemOf(reqs[j])) == reqs[j]
  {
    assert reqs[j] in reqs;
  }

  /** The queue holds the requests since the last flush and fits into one bulk post. */
  ghost predicate Queued(size: Size, queue: seq<Item>, bufSize: nat, pending: seq<Req>) {
    && queue == ItemSeq(pending)
    && bufSize == Total(size, Sends(pending)) && WithinBounds(size, Sends(pending))
  }

  /** The order of references on the server, if the requests are in order. */
  ghost predicate OrderKept(base: set<Item>, log0: seq<Req>, log: seq<Req>, reqs: seq<Req>) {
    InOrder(base, log0) && InOrder(base + ReqItems(log0), reqs) ==> InOrder(base, log)
  }

  // What a flush does to the invariant of a stream.

  lemma QueueIsRequested(reqs: seq<Req>, flushed: nat)
    requires flushed <= |reqs|
    ensures forall q | q in ItemSeq(reqs[flushed..]) :: q in ReqItems(reqs)
  {
    var queue := ItemSeq(reqs[flushed..]);
    forall q | q in queue ensures q in ReqItems(reqs) {
      var i :| 0 <= i < |queue| && queue[i] == q;
      ItemIsIn(reqs, reqs[flushed + i]);
    }
  }

  lemma {:induction false} PresentIsEnough(present: set<Item>, items: set<Item>, rs: seq<Req>)
    requires forall q | q in ItemSeq(rs) :: q in present <==> q in items
    ensures Lacking(present, rs) == Lacking(items, rs)
  {
    if rs != [] {
      var rest := rs[..|rs| - 1];
      assert ItemSeq(rs)[|rs| - 1] == ItemOf(rs[|rs| - 1]);
      assert ItemSeq(rs)[..|rs| - 1] == ItemSeq(rest);
      PresentIsEnough(present, items, rest);
    }
  }

  /** What a flush sends is requested and lacking. */
  lemma LackingFacts(items: set<Item>, reqs: seq<Req>, flushed: nat)
    requires flushed <= |reqs|
    ensures var lacking := Lacking(items, reqs[flushed..]);
            && (forall r | r in Uploads(lacking) :: r.Upload? && r in reqs && ItemOf(r) !in items)
            && (forall r | r in Sends(lacking) :: r in reqs && ItemOf(r) !in items)
            && ReqItems(Sends(lacking)) <= ReqItems(reqs)
  {
    var pending := reqs[flushed..];
    var lacking := Lacking(items, pending);
    forall r ensures r in Uploads(lacking) ==> r.Upload? && r in reqs && ItemOf(r) !in items
             ensures r in Sends(lacking) ==> r in reqs && ItemOf(r) !in items {
      PartsAreIn(items, pending, r);
      PartsAreIn(items, lacking, r);
    }
    hide Lacking, Uploads, Sends;
    forall q | q in ReqItems(Sends(lacking)) ensures q in ReqItems(reqs) {
      var k :| 0 <= k < |Sends(lacking)| && ItemOf(Sends(lacking)[k]) == q;
      ItemIsIn(reqs, Sends(lacking)[k]);
    }
  }

  lemma LoggedMore(base: set<Item>, log0: seq<Req>, log: seq<Req>, part: seq<Req>, reqs: seq<Req>)
    requires Logged(base, log0, log, reqs)
    requires forall r | r in part :: r in reqs && ItemOf(r) !in base + ReqItems(log)
    ensures Logged(base, log0, log + part, reqs)
    ensures ReqItems(log0) <= ReqItems(log) <= ReqItems(log + part)
  {
    ReqItemsAppend(log, part);
    ReqItemsAppend(log0, log[|log0|..]);
    assert log == log0 + log[|log0|..];
    hide ReqItems;
    var more := log + part;
    forall i | |log0| <= i < |more| ensures more[i] in reqs && ItemOf(more[i]) !in base + ReqItems(log0) {
      if i >= |log| {
        assert more[i] == part[i - |log|];
      }
    }
  }

  /** Uploads keep the log in order. */
  lemma UploadsGrow(base: set<Item>, log0: seq<Req>, log: seq<Req>, part: seq<Req>, reqs: seq<Req>)
    requires Logged(base, log0, log, reqs) && OrderKept(base, log0, log, reqs)
    requires forall r | r in part :: r.Upload? && r in reqs && ItemOf(r) !in base + ReqItems(log)
    ensures Logged(base, log0, log + part, reqs) && OrderKept(base, log0, log + part, reqs)
    ensures ReqItems(log) <= ReqItems(log + part)
  {
    LoggedMore(base, log0, log, part, reqs);
    UploadsInOrder(base + ReqItems(log), part);
    hide InOrder, ReqItems, Logged;
    if InOrder(base, log) {
      InOrderAppend(base, log, part);
    }
  }

  /** The requests since the last flush are in order with what has arrived. */
  lemma PendingInOrder(items0: set<Item>, items: set<Item>, reqs: seq<Req>, flushed: nat)
    requires InOrder(items0, reqs) && items0 <= items && flushed <= |reqs| && ReqItems(reqs[..flushed]) <= items
    ensures InOrder(items, reqs[flushed..])
  {
    var pending := reqs[flushed..];
    hide ReqItems, Refs;
    forall i | 0 <= i < |pending| && pending[i].PostEntry? ensures Refs(pending[i].id) <= items + ReqItems(pending[..i]) {
      assert reqs[..flushed + i] == reqs[..flushed] + pending[..i];
      ReqItemsAppend(reqs[..flushed], pending[..i]);
      assert reqs[flushed + i] == pending[i];
    }
  }

  /** The bulk after the uploads keeps the log in order, also if it takes effect in part. */
  lemma BulkGrows(base: set<Item>, log0: seq<Req>, log: seq<Req>, reqs: seq<Req>, flushed: nat, n: nat)
    requires Logged(base, log0, log, reqs) && OrderKept(base, log0, log, reqs)
    requires flushed <= |reqs| && ReqItems(reqs[..flushed]) <= base + ReqItems(log)
    requires n <= |Sends(Lacking(base + ReqItems(log), reqs[flushed..]))|
    ensures var lacking := Lacking(base + ReqItems(log), reqs[flushed..]);
            var more := log + Uploads(lacking) + Sends(lacking)[..n];
            Logged(base, log0, more, reqs) && OrderKept(base, log0, more, reqs) && ReqItems(log) <= ReqItems(more)
  {
    var items := base + ReqItems(log);
    var lacking := Lacking(items, reqs[flushed..]);
    var uploads, part := Uploads(lacking), Sends(lacking)[..n];
    LackingFacts(items, reqs, flushed);
    LoggedMore(base, log0, log, uploads + part, reqs);
    assert log + uploads + part == log + (uploads + part);
    if InOrder(base, log0) && InOrder(base + ReqItems(log0), reqs) {
      PendingInOrder(base + ReqItems(log0), items, reqs, flushed);
      LackingInOrder(items, reqs[flushed..]);
      UploadsInOrder(items, uploads);
      hide InOrder, ReqItems, Lacking, Uploads, Sends, Logged;
      InOrderPrefix(items + ReqItems(uploads), Sends(lacking), n);
      InOrderAppend(items, uploads, part);
      InOrderAppend(base, log, uploads + part);
    }
  }

  lemma AllArrived(base: set<Item>, log: seq<Req>, reqs: seq<Req>, flushed: nat)
    requires flushed <= |reqs| && ReqItems(reqs[..flushed]) <= base + ReqItems(log)
    ensures var lacking := Lacking(base + ReqItems(log), reqs[flushed..]);
            ReqItems(reqs) <= base + ReqItems(log + Uploads(lacking) + Sends(lacking))
  {
    var items := base + ReqItems(log);
    var lacking := Lacking(items, reqs[flushed..]);
    LackingItems(items, reqs[flushed..]);
    hide Lacking, Uploads, Sends, ReqItems;
    assert log + Uploads(lacking) + Sends(lacking) == log + (Uploads(lacking) + Sends(lacking));
    ReqItemsAppend(log, Uploads(lacking) + Sends(lacking));
    assert reqs == reqs[..flushed] + reqs[flushed..];
    ReqItemsAppend(reqs[..flushed], reqs[flushed..]);
  }

  lemma EmptyQueue(size: Size, reqs: seq<Req>)
    ensures Queued(size, [], 0, reqs[|reqs|..]) && reqs[..|reqs|] == reqs
  {
    assert reqs[|reqs|..] == [];
  }

  /** An entry of size `s` can be queued: it is not too large, and it fits into the buffer or
      the flush succeeds. */
  predicate Fits(bufSize: nat, s: nat, fault: Fault) {
    s <= POST_BUFFER_SIZE_LIMIT && (bufSize + s <= POST_BUFFER_SIZE || fault.NoFault?)
  }

  // What another request does to the invariant of a stream.

  lemma DistinctOneMore(reqs: seq<Req>, r: Req)
    requires DistinctItems(reqs) && ItemOf(r) !in ReqItems(reqs)
    ensures DistinctItems(reqs + [r])
  {
    forall i | 0 <= i < |reqs| ensures ItemOf(reqs[i]) != ItemOf(r) {
      ItemIsIn(reqs, reqs[i]);
    }
  }

  lemma QueuedOneMore(size: Size, queue: seq<Item>, bufSize: nat, pending: seq<Req>, r: Req)
    requires Queued(size, queue, bufSize, pending)
    requires r.Upload? || (size(r) <= POST_BUFFER_SIZE_LIMIT && (bufSize + size(r) <= POST_BUFFER_SIZE || queue == []))
    ensures Queued(size, queue + [ItemOf(r)], bufSize + (if r.Upload? then 0 else size(r)), pending + [r])
  {
    SendsOneMore(pending, r);
    TotalOneMore(size, Sends(pending), r);
    NothingToSend(size);
    if queue == [] {
      assert pending == [];
    }
    hide Total, Sends;
    assert ItemSeq(pending + [r]) == ItemSeq(pending) + [ItemOf(r)];
  }

  lemma LoggedLater(base: set<Item>, log0: seq<Req>, log: seq<Req>, reqs: seq<Req>, r: Req)
    requires Logged(base, log0, log, reqs) && OrderKept(base, log0, log, reqs)
    ensures Logged(base, log0, log, reqs + [r]) && OrderKept(base, log0, log, reqs + [r])
  {
    if InOrder(base + ReqItems(log0), reqs + [r]) {
      InOrderPrefix(base + ReqItems(log0), reqs + [r], |reqs|);
      assert (reqs + [r])[..|reqs|] == reqs;
    }
  }

  class Stream {
    const repo: RemoteRepo
    var t: Tables
    var queue: seq<Item>
    var bufSize: nat
    /** What was known and what the repo had received when the stream was created. */
    ghost const known0: set<Item>
    ghost const log0: seq<Req>
    /** All requests of the stream, and how many of them have been flushed. */
    ghost var reqs: seq<Req>
    ghost var flushed: nat

    ghost predicate Valid()
      reads this, repo
    {
      && repo.Valid() && flushed <= |reqs|
      && known0 <= repo.Known() <= known0 + ReqItems(reqs) && known0 <= repo.base + ReqItems(log0)
      && TablesMatch(t, reqs) && DistinctItems(reqs) && Queued(repo.size, queue, bufSize, reqs[flushed..])
      && ReqItems(reqs[..flushed]) <= repo.Items()
      && Logged(repo.base, log0, repo.log, reqs) && OrderKept(repo.base, log0, repo.log, reqs)
    }

    constructor (repo: RemoteRepo)
      requires repo.Valid()
      ensures Valid() && this.repo == repo && known0 == repo.Known() && log0 == repo.log && reqs == []
    {
      this.repo := repo;
      known0, log0, reqs, flushed := repo.Known(), repo.log, [], 0;
      t, queue, bufSize := Tables({}, map[], {}, map[]), [], 0;
      new;
      NothingToSend(repo.size);
    }

    /** The loop over the stat records, one per queued item. */
    method Collect(present: set<Item>) returns (blobs: seq<Req>, bulk: seq<Req>, expected: seq<Item>)
      requires flushed <= |reqs| && TablesMatch(t, reqs) && queue == ItemSeq(reqs[flushed..])
      ensures var lacking := Lacking(present, reqs[flushed..]);
              blobs == Uploads(lacking) && bulk == Sends(lacking) && expected == ItemSeq(bulk)
    {
      hide Lacking, Uploads, Sends, ReqItems, TablesMatch;
      ghost var pending := reqs[flushed..];
      ghost var lacking: seq<Req> := [];
      NothingLacks(present);
      blobs, bulk, expected := [], [], [];
      for i := 0 to |queue|
        invariant lacking == Lacking(present, pending[..i])
        invariant blobs == Uploads(lacking) && bulk == Sends(lacking) && expected == ItemSeq(bulk)
      {
        QueuedRequest(t, reqs, flushed + i);
        assert queue[i] == ItemOf(pending[i]) && pending[i] == reqs[flushed + i];
        assert pending[..i + 1] == pending[..i] + [pending[i]];
        LackingOneMore(present, pending[..i], pending[i]);
        SendsOneMore(lacking, pending[i]);
        UploadsOneMore(lacking, pending[i]);
        if queue[i] !in present {
          var r := ReqOf(t, queue[i]);
          assert r == pending[i];
          lacking := lacking + [r];
          if r.Upload? {
            blobs := blobs + [r];
          } else {
            bulk := bulk + [r];
            expected := expected + [queue[i]];
          }
        }
      }
      assert pending[..|queue|] == pending;
    }

    /** Upload the missing blobs and post the missing entries. */
    method Transfer(present: set<Item>, fault: Fault) returns (ok: bool)
      requires Valid() && present == set q | q in queue && q in repo.Items()
      modifies repo`log, repo`knownEntries
      ensures Valid() && ok == !(fault.UploadFails? || fault.PostFails?)
      ensures ok ==> var lacking := Lacking(old(repo.Items()), reqs[flushed..]);
                     repo.log == old(repo.log) + Uploads(lacking) + Sends(lacking)
    {
      hide TablesMatch, DistinctItems, Logged, OrderKept, Lacking, Uploads, Sends, ReqItems, InOrder, WithinBounds, Total;
      ghost var log1, pending := repo.log, reqs[flushed..];
      LackingFacts(repo.Items(), reqs, flushed);
      LackingWithinBounds(repo.size, repo.Items(), pending);
      assert queue == ItemSeq(pending);
      PresentIsEnough(present, repo.Items(), pending);
      hide Queued, ItemSeq, RemoteRepo.Known;
      var blobs, bulk, expected := Collect(present);
      ok := repo.UploadBlobs(blobs, fault);
      ghost var part :| repo.log == log1 + part && forall r | r in part :: r in blobs;
      UploadsGrow(repo.base, log0, log1, part, reqs);
      if !ok {
        return;
      }
      ok := repo.PostBulk(bulk, expected, fault);
      ghost var n :| 0 <= n <= |bulk| && repo.log == log1 + blobs + bulk[..n];
      BulkGrows(repo.base, log0, log1, reqs, flushed, n);
    }

    /** Stat the queue, upload the missing blobs and post the missing entries.  False where a
        call fails; then the queue stays. */
    method Flush() returns (ok: bool)
      requires Valid()
      modifies this, repo
      ensures Valid() && t == old(t) && reqs == old(reqs) && repo.flushes == old(repo.flushes) + 1
      ensures ok == repo.faults(old(repo.flushes)).NoFault?
      ensures ok ==> queue == [] && bufSize == 0 && flushed == |reqs|
      ensures !ok ==> queue == old(queue) && bufSize == old(bufSize) && flushed == old(flushed)
      ensures repo.faults(old(repo.flushes)).StatFails? ==> repo.log == old(repo.log)
      ensures ok ==> var lacking := Lacking(old(repo.Items()), reqs[old(flushed)..]);
                     repo.log == old(repo.log) + Uploads(lacking) + Sends(lacking)
    {
      hide TablesMatch, DistinctItems, Logged, OrderKept, Lacking, Uploads, Sends, ReqItems, WithinBounds, Total;
      ghost var log1 := repo.log;
      QueueIsRequested(reqs, flushed);
      assert queue == ItemSeq(reqs[flushed..]);
      hide Queued, ItemSeq;
      var fault := repo.faults(repo.flushes);
      repo.flushes := repo.flushes + 1;
      var present;
      ok, present := repo.Stat(queue, fault);
      if !ok {
        return;
      }
      ok := Transfer(present, fault);
      if ok {
        AllArrived(repo.base, log1, reqs, flushed);
        EmptyQueue(repo.size, reqs);
        flushed, queue, bufSize := |reqs|, [], 0;
      }
    }

    // Enqueueing.

    /** There was no flush. */
    twostate predicate Quiet()
      reads repo
    {
      repo.log == old(repo.log) && repo.flushes == old(repo.flushes)
    }

    /** False where the source raises because the flush fails or the entry is too large. */
    method MaybeFlush(s: nat) returns (ok: bool)
      requires Valid()
      modifies this, repo
      ensures Valid() && t == old(t) && reqs == old(reqs)
      ensures ok <==> Fits(old(bufSize), s, repo.faults(old(repo.flushes)))
      ensures ok ==> bufSize + s <= POST_BUFFER_SIZE || queue == []
      ensures old(bufSize) + s <= POST_BUFFER_SIZE ==> queue == old(queue) && bufSize == old(bufSize) && Quiet()
    {
      if bufSize + s > POST_BUFFER_SIZE {
        var flushed := Flush();
        if !flushed {
          return false;
        }
      }
      ok := s <= POST_BUFFER_SIZE_LIMIT;
    }

    /** Add a request for an item that is neither known nor requested. */
    method Append(r: Req)
      requires Valid() && ItemOf(r) !in known0 + ReqItems(reqs)
      requires r.Upload? || (repo.size(r) <= POST_BUFFER_SIZE_LIMIT &&
                             (bufSize + repo.size(r) <= POST_BUFFER_SIZE || queue == []))
      modifies this
      ensures Valid() && reqs == old(reqs) + [r] && t == Register(old(t), r) && queue == old(queue) + [ItemOf(r)]
      ensures bufSize == old(bufSize) + if r.Upload? then 0 else repo.size(r)
    {
      hide TablesMatch, DistinctItems, Logged, OrderKept, Queued, ReqItems, Register;
      RegisterMatches(t, reqs, r);
      DistinctOneMore(reqs, r);
      QueuedOneMore(repo.size, queue, bufSize, reqs[flushed..], r);
      LoggedLater(repo.base, log0, repo.log, reqs, r);
      ReqItemsAppend(reqs, [r]);
      assert (reqs + [r])[flushed..] == reqs[flushed..] + [r];
      assert (reqs + [r])[..flushed] == reqs[..flushed];
      t := Register(t, r);
      queue := queue + [ItemOf(r)];
      bufSize := bufSize + if r.Upload? then 0 else repo.size(r);
      reqs := reqs + [r];
    }

    predicate HasEntry(id: Id)
      reads this, repo
    {
      id in t.entries || id in t.copyEntries || id in repo.knownEntries
    }

    predicate HasBlob(b: BlobId)
      reads this, repo
    {
      b in t.blobs || b in t.copyBlobs || b in repo.knownBlobs
    }

    lemma HasIsRequested()
      requires Valid()
      ensures forall id :: HasEntry(id) <==> EntryItem(id) in known0 + ReqItems(reqs)
      ensures forall b :: HasBlob(b) <==> BlobItem(b) in known0 + ReqItems(reqs)
    {
      forall q ensures Registered(t, q) <==> q in ReqItems(reqs) {
        if q in ReqItems(reqs) {
          var k :| 0 <= k < |reqs| && ItemOf(reqs[k]) == q;
          QueuedRequest(t, reqs, k);
        }
      }
      hide ReqItems, TablesMatch;
      assert forall id :: EntryItem(id) in repo.Known() <==> id in repo.knownEntries;
      assert forall b :: BlobItem(b) in repo.Known() <==> b in repo.knownBlobs;
      assert forall id :: Registered(t, EntryItem(id)) <==> id in t.entries || id in t.copyEntries;
      assert forall b :: Registered(t, BlobItem(b)) <==> b in t.blobs || b in t.copyBlobs;
    }

    /** A new request that goes into a bulk post. */
    method EnqueueNew(r: Req) returns (ok: bool)
      requires Valid() && ItemOf(r) !in known0 + ReqItems(reqs) && !r.Upload?
      modifies this, repo
      ensures Valid() && reqs == if ok then Add(known0, old(reqs), [r]) else old(reqs)
      ensures ok <==> Fits(old(bufSize), repo.size(r), repo.faults(old(repo.flushes)))
      ensures old(bufSize) + repo.size(r) <= POST_BUFFER_SIZE ==> Quiet() && bufSize <= old(bufSize) + repo.size(r)
    {
      hide Valid, ReqItems, Add;
      AddOne(known0, reqs, r);
      ok := MaybeFlush(repo.size(r));
      if ok {
        Append(r);
      }
    }

    /** Queue an entry with content, unless it is known or queued before. */
    method Enqueue(id: Id) returns (ok: bool)
      requires Valid()
      modifies this, repo
      ensures Valid() && reqs == if ok then Add(known0, old(reqs), [PostEntry(id)]) else old(reqs)
      ensures ok <==> old(HasEntry(id)) || Fits(old(bufSize), repo.size(PostEntry(id)), repo.faults(old(repo.flushes)))
      ensures old(bufSize) + repo.size(PostEntry(id)) <= POST_BUFFER_SIZE ==> Quiet() && bufSize <= old(bufSize) + repo.size(PostEntry(id))
    {
      hide Valid, ReqItems, Add;
      HasIsRequested();
      AddOne(known0, reqs, PostEntry(id));
      if HasEntry(id) {
        return true;
      }
      ok := EnqueueNew(PostEntry(id));
    }

    method EnqueueCopyEntry(id: Id, origin: RepoName) returns (ok: bool)
      requires Valid()
      modifies this, repo
      ensures Valid() && reqs == if ok then Add(known0, old(reqs), [CopyEntry(id, origin)]) else old(reqs)
      ensures ok <==> old(HasEntry(id)) || Fits(old(bufSize), repo.size(CopyEntry(id, origin)), repo.faults(old(repo.flushes)))
      ensures old(bufSize) + repo.size(CopyEntry(id, origin)) <= POST_BUFFER_SIZE ==> Quiet() && bufSize <= old(bufSize) + repo.size(CopyEntry(id, origin))
    {
      hide Valid, ReqItems, Add;
      HasIsRequested();
      AddOne(known0, reqs, CopyEntry(id, origin));
      if HasEntry(id) {
        return true;
      }
      ok := EnqueueNew(CopyEntry(id, origin));
    }

    method EnqueueBlob(b: BlobId)
      requires Valid()
      modifies this, repo
      ensures Valid() && reqs == Add(known0, old(reqs), [Upload(b)]) && Quiet() && bufSize == old(bufSize)
    {
      hide Valid, ReqItems, Add;
      HasIsRequested();
      AddOne(known0, reqs, Upload(b));
      if HasBlob(b) {
        return;
      }
      Append(Upload(b));
    }

    method EnqueueCopyBlob(b: BlobId, origin: RepoName) returns (ok: bool)
      requires Valid()
      modifies this, repo
      ensures Valid() && reqs == if ok then Add(known0, old(reqs), [CopyBlob(b, origin)]) else old(reqs)
      ensures ok <==> old(HasBlob(b)) || Fits(old(bufSize), repo.size(CopyBlob(b, origin)), repo.faults(old(repo.flushes)))
      ensures old(bufSize) + repo.size(CopyBlob(b, origin)) <= POST_BUFFER_SIZE ==> Quiet() && bufSize <= old(bufSize) + repo.size(CopyBlob(b, origin))
    {
      hide Valid, ReqItems, Add;
      HasIsRequested();
      AddOne(known0, reqs, CopyBlob(b, origin));
      if HasBlob(b) {
        return true;
      }
      ok := EnqueueNew(CopyBlob(b, origin));
    }

    // Posting nodes.

    /** `_postToStream()`: make the requests of the node, in order, until one fails.  `k` of
        them are made; the node is marked accordingly. */
    method PostNode(n: Node) returns (ok: bool, id: Id, n': Node, ghost k: nat)
      requires Valid()
      modifies this, repo
      ensures Valid() && k <= |Requests(repo.name, n)| && (ok <==> k == |Requests(repo.name, n)|)
      ensures reqs == Add(known0, old(reqs), Requests(repo.name, n)[..k])
      ensures n' == MarkTo(repo.name, n, k) && id == NodeId(n)
      ensures Postable(n) && old(bufSize) + Total(repo.size, Requests(repo.name, n)) <= POST_BUFFER_SIZE ==>
                ok && Quiet() && bufSize <= old(bufSize) + Total(repo.size, Requests(repo.name, n))
      decreases n, 1, 0
    {
      hide Valid, Add, SlotsRequests, ReqItems, Total;
      AddOne(known0, reqs, Upload(""));
      TotalOfRequests(repo.size, repo.name, n);
      id, n', k := NodeId(n), n, 0;
      ghost var rs := Requests(repo.name, n);
      assert rs[..0] == [];
      match n
      case Lazy(_, _, _) =>
        assert rs[..|rs|] == rs;
        ok := true;
        if Foreign(repo.name, n) {
          ok := EnqueueCopyEntry(n.id, n.repo.value);
          k := if ok then 1 else 0;
        }
      case Obj(name, meta, blob, _) =>
        if blob.BlobData? {
          EnqueueBlob(blob.b);
          k := 1;
        } else if blob.BlobSha? && blob.b != NULL_SHA1 && Foreign(repo.name, n) {
          ok := EnqueueCopyBlob(blob.b, n.repo.value);
          if !ok {
            return;
          }
          k := 1;
        }
        assert rs[..k] == BlobRequests(repo.name, n);
        ok := Enqueue(id);
        if ok {
          AddAppend(known0, old(reqs), rs[..k], [PostEntry(id)]);
          assert rs[..k + 1] == rs[..k] + [PostEntry(id)];
          k := k + 1;
          n' := Obj(name, meta, blob, Some(repo.name));
        }
      case Tree(name, meta, entries, origin) =>
        var entries';
        ok, entries', k := PostEntries(n);
        assert rs[..k] == SlotsRequests(repo.name, n, |entries|)[..k];
        n' := Tree(name, meta, entries', origin);
        if !ok {
          return;
        }
        ok := Enqueue(id);
        if ok {
          AddAppend(known0, old(reqs), rs[..k], [PostEntry(id)]);
          assert rs[..k + 1] == rs[..k] + [PostEntry(id)];
          k := k + 1;
          n' := Tree(name, meta, entries', Some(repo.name));
          assert MarkSlots(repo.name, entries) == entries';
        }
    }

    /** Make the requests of the entries of a loaded tree. */
    method PostEntries(n: Node) returns (ok: bool, entries': seq<Slot>, ghost k: nat)
      requires n.Tree? && Valid()
      modifies this, repo
      ensures Valid() && k <= |SlotsRequests(repo.name, n, |n.entries|)|
      ensures reqs == Add(known0, old(reqs), SlotsRequests(repo.name, n, |n.entries|)[..k])
      ensures Tree(n.name, n.meta, entries', n.repo) == MarkTo(repo.name, n, k)
      ensures ok ==> k == |SlotsRequests(repo.name, n, |n.entries|)| && entries' == MarkSlots(repo.name, n.entries)
      ensures Postable(n) && old(bufSize) + Total(repo.size, SlotsRequests(repo.name, n, |n.entries|)) <= POST_BUFFER_SIZE ==>
                ok && Quiet() && bufSize <= old(bufSize) + Total(repo.size, SlotsRequests(repo.name, n, |n.entries|))
      decreases n, 0, 1
    {
      hide Valid, Add, ReqItems, Requests, SlotRequests, MarkTo, MarkSlotTo, MarkSlot, Total, Postable;
      AddOne(known0, reqs, Upload(""));
      NothingToSend(repo.size);
      ghost var all := SlotsRequests(repo.name, n, |n.entries|);
      ghost var small := Postable(n) && old(bufSize) + Total(repo.size, all) <= POST_BUFFER_SIZE;
      entries' := n.entries;
      for i := 0 to |n.entries|
        invariant Valid() && |entries'| == |n.entries|
        invariant small ==> Quiet() && bufSize <= old(bufSize) + Total(repo.size, SlotsRequests(repo.name, n, i))
        invariant reqs == Add(known0, old(reqs), SlotsRequests(repo.name, n, i))
        invariant forall j :: 0 <= j < i ==> entries'[j] == MarkSlot(repo.name, n.entries[j])
        invariant forall j :: i <= j < |n.entries| ==> entries'[j] == n.entries[j]
      {
        ghost var before, here := SlotsRequests(repo.name, n, i), SlotRequests(repo.name, n, i);
        SlotsPrefix(repo.name, n, i + 1, |n.entries|);
        TotalOfSlot(repo.size, repo.name, n, i);
        var s;
        ghost var k1;
        ok, s, k1 := PostSlot(n, i);
        AddAppend(known0, old(reqs), before, here[..k1]);
        entries' := entries'[i := s];
        if !ok {
          k := |before| + k1;
          assert all[..k] == before + here[..k1];
          MarkedUpTo(repo.name, n, entries', i, k1);
          return;
        }
        assert before + here[..k1] == SlotsRequests(repo.name, n, i + 1);
      }
      k := |all|;
      assert all[..k] == all;
      MarkedUpTo(repo.name, n, entries', |n.entries|, 0);
      return true, entries', k;
    }

    /** Make the requests of one entry. */
    method PostSlot(n: Node, i: nat) returns (ok: bool, s: Slot, ghost k1: nat)
      requires n.Tree? && i < |n.entries| && Valid()
      modifies this, repo
      ensures Valid() && k1 <= |SlotRequests(repo.name, n, i)|
      ensures reqs == Add(known0, old(reqs), SlotRequests(repo.name, n, i)[..k1])
      ensures s == MarkSlotTo(repo.name, n, i, |SlotsRequests(repo.name, n, i)| + k1)
      ensures ok ==> k1 == |SlotRequests(repo.name, n, i)| && s == MarkSlot(repo.name, n.entries[i])
      ensures Postable(n) && old(bufSize) + Total(repo.size, SlotRequests(repo.name, n, i)) <= POST_BUFFER_SIZE ==>
                ok && Quiet() && bufSize <= old(bufSize) + Total(repo.size, SlotRequests(repo.name, n, i))
      decreases n, 0, 0
    {
      hide Valid, Add, ReqItems, Requests, SlotsRequests, MarkTo, Total;
      AddOne(known0, reqs, Upload(""));
      TotalOfSlot(repo.size, repo.name, n, i);
      ghost var here := SlotRequests(repo.name, n, i);
      assert here[..0] == [];
      ok, s, k1 := true, n.entries[i], 0;
      match n.entries[i]
      case Child(c) =>
        SlotGotTo(repo.name, n, i, 0);
        if NodeKind(c).OtherKind? {
          return false, s, 0;
        }
        var id, c';
        ok, id, c', k1 := PostNode(c);
        SlotGotTo(repo.name, n, i, k1);
        s := Child(c');
      case Raw(ref) =>
        if Foreign(repo.name, n) {
          ok := EnqueueCopyEntry(ref.id, n.repo.value);
          k1 := if ok then 1 else 0;
          assert here[..1] == here;
        }
    }
  }

  /** A child that got to `k1` of its requests is marked accordingly. */
  lemma SlotGotTo(repo: RepoName, n: Node, i: nat, k1: nat)
    requires n.Tree? && i < |n.entries| && n.entries[i].Child? && k1 <= |Requests(repo, n.entries[i].node)|
    ensures var c := n.entries[i].node;
            && MarkSlotTo(repo, n, i, |SlotsRequests(repo, n, i)| + k1) == Child(MarkTo(repo, c, k1))
            && MarkTo(repo, c, 0) == c
            && (k1 == |Requests(repo, c)| ==> Child(MarkTo(repo, c, k1)) == MarkSlot(repo, n.entries[i]))
  {
    MarkNothing(repo, n.entries[i].node);
  }

  /** There is no entry that is neither an object nor a tree. */
  predicate Postable(n: Node) {
    n.Tree? ==> forall s | s in n.entries && s.Child? :: !NodeKind(s.node).OtherKind? && Postable(s.node)
  }

  lemma {:induction false} TotalAppend(size: Size, a: seq<Req>, b: seq<Req>)
    ensures Total(size, a + b) == Total(size, a) + Total(size, b)
  {
    if b == [] {
      assert a + b == a;
    } else {
      assert (a + b)[..|a + b| - 1] == a + b[..|b| - 1];
      TotalAppend(size, a, b[..|b| - 1]);
    }
  }

  lemma TotalOfOne(size: Size, r: Req)
    ensures Total(size, [r]) == size(r) && Total(size, []) == 0
  {
    assert [r][..0] == [];
  }

  lemma TotalOfRequests(size: Size, repo: RepoName, n: Node)
    ensures n.Lazy? && Foreign(repo, n) ==> Total(size, Requests(repo, n)) == size(CopyEntry(n.id, n.repo.value))
    ensures n.Obj? ==> Total(size, Requests(repo, n)) == Total(size, BlobRequests(repo, n)) + size(PostEntry(NodeId(n)))
    ensures n.Obj? && n.blob.BlobSha? && n.blob.b != NULL_SHA1 && Foreign(repo, n) ==>
              Total(size, BlobRequests(repo, n)) == size(CopyBlob(n.blob.b, n.repo.value))
    ensures n.Tree? ==>
              Total(size, Requests(repo, n)) == Total(size, SlotsRequests(repo, n, |n.entries|)) + size(PostEntry(NodeId(n)))
  {
    hide SlotsRequests;
    TotalOfOne(size, PostEntry(NodeId(n)));
    match n
    case Lazy(_, id, _) =>
      if Foreign(repo, n) {
        TotalOfOne(size, CopyEntry(id, n.repo.value));
      }
    case Obj(_, _, blob, _) =>
      TotalAppend(size, BlobRequests(repo, n), [PostEntry(NodeId(n))]);
      if BlobRequests(repo, n) != [] {
        TotalOfOne(size, BlobRequests(repo, n)[0]);
      }
    case Tree(_, _, entries, _) =>
      TotalAppend(size, SlotsRequests(repo, n, |entries|), [PostEntry(NodeId(n))]);
  }

  lemma TotalOfSlot(size: Size, repo: RepoName, n: Node, i: nat)
    requires n.Tree? && i < |n.entries|
    ensures Total(size, SlotsRequests(repo, n, i + 1)) ==
            Total(size, SlotsRequests(repo, n, i)) + Total(size, SlotRequests(repo, n, i))
    ensures Total(size, SlotsRequests(repo, n, i + 1)) <= Total(size, SlotsRequests(repo, n, |n.entries|))
    ensures n.entries[i].Raw? && Foreign(repo, n) ==>
              Total(size, SlotRequests(repo, n, i)) == size(CopyEntry(n.entries[i].ref.id, n.repo.value))
    ensures Postable(n) && n.entries[i].Child? ==>
              !NodeKind(n.entries[i].node).OtherKind? && Postable(n.entries[i].node)
  {
    hide Total, Requests;
    TotalAppend(size, SlotsRequests(repo, n, i), SlotRequests(repo, n, i));
    SlotsPrefix(repo, n, i + 1, |n.entries|);
    var a, b := SlotsRequests(repo, n, i + 1), SlotsRequests(repo, n, |n.entries|);
    assert b == a + b[|a|..];
    TotalAppend(size, a, b[|a|..]);
    if n.entries[i].Raw? && Foreign(repo, n) {
      TotalOfOne(size, CopyEntry(n.entries[i].ref.id, n.repo.value));
    }
    assert n.entries[i] in n.entries;
  }

  // Posting a tree.

  /** The requests that a post makes first are those that count. */
  function Made(known: set<Item>, repo: RepoName, n: Node, k: nat): seq<Req>
    requires k <= |Requests(repo, n)|
  {
    Add(known, [], Requests(repo, n)[..k])
  }

  lemma ConfirmedIsInOrder(known: set<Item>, repo: RepoName, items: set<Item>, n: Node, k: nat)
    requires Confirmed(repo, items, n) && known <= items && k <= |Requests(repo, n)|
    ensures InOrder(items, Made(known, repo, n, k))
  {
    RequestsInOrder(repo, items, n);
    InOrderPrefix(items, Requests(repo, n), k);
    AddInOrder(known, items, Requests(repo, n)[..k]);
  }

  lemma ArrivedIsComplete(known: set<Item>, repo: RepoName, before: set<Item>, after: set<Item>, n: Node)
    requires Confirmed(repo, before, n) && known <= before <= after
    requires ReqItems(Made(known, repo, n, |Requests(repo, n)|)) <= after
    ensures Complete(after, n)
  {
    var rs := Requests(repo, n);
    assert rs[..|rs|] == rs;
    AddFacts(known, rs);
    FulfilledIsComplete(repo, before, n);
    hide Requests, Complete, ReqItems;
    CompleteLater(before + ReqItems(rs), after, n);
  }

  /** `RemoteRepo.postTree()`: post through a new stream and close it, also after a failure.
      It makes the first `k` requests of the tree.  What reaches the repo are requests for
      what it lacked; if the tree is confirmed, references come before what refers to them,
      and after success the repo has the tree and everything below that the client knows. */
  method PostTree(repo: RemoteRepo, n: Node) returns (ok: bool, id: Id, n': Node, ghost k: nat)
    requires repo.Valid()
    modifies repo
    ensures repo.Valid() && k <= |Requests(repo.name, n)|
    ensures n' == MarkTo(repo.name, n, k) && id == NodeId(n)
    ensures Logged(repo.base, old(repo.log), repo.log, Made(old(repo.Known()), repo.name, n, k))
    ensures Confirmed(repo.name, old(repo.Items()), n) && InOrder(repo.base, old(repo.log)) ==> InOrder(repo.base, repo.log)
    ensures ok ==> k == |Requests(repo.name, n)| && ReqItems(Made(old(repo.Known()), repo.name, n, k)) <= repo.Items()
    ensures ok && Confirmed(repo.name, old(repo.Items()), n) ==> Complete(repo.Items(), n)
    ensures Postable(n) && Total(repo.size, Requests(repo.name, n)) <= POST_BUFFER_SIZE ==>
              && k == |Requests(repo.name, n)| && repo.flushes == old(repo.flushes) + 1
              && (ok <==> repo.faults(old(repo.flushes)).NoFault?)
              && (repo.faults(old(repo.flushes)).StatFails? ==> repo.log == old(repo.log))
  {
    hide Complete, Confirmed, ReqItems, InOrder, Add, Requests, MarkTo, Total, DistinctItems, TablesMatch, Queued;
    ghost var items, known := repo.Items(), repo.Known();
    var s := new Stream(repo);
    NothingQueued(repo.size, s.queue, s.bufSize, s.reqs[s.flushed..]);
    ok, id, n', k := s.PostNode(n);
    var closed := s.Flush();
    if Confirmed(repo.name, items, n) {
      ConfirmedIsInOrder(known, repo.name, items, n, k);
    }
    ok := ok && closed;
    if ok {
      assert s.reqs[..s.flushed] == s.reqs;
      LogItems(repo.base, s.log0, repo.log, s.reqs);
      if Confirmed(repo.name, items, n) {
        ArrivedIsComplete(known, repo.name, items, repo.Items(), n);
      }
    }
  }

  lemma NothingQueued(size: Size, queue: seq<Item>, bufSize: nat, pending: seq<Req>)
    requires Queued(size, queue, bufSize, pending) && pending == []
    ensures bufSize == 0
  {
    NothingToSend(size);
  }

  lemma LogItems(base: set<Item>, log0: seq<Req>, log: seq<Req>, reqs: seq<Req>)
    requires Logged(base, log0, log, reqs)
    ensures ReqItems(log0) <= ReqItems(log)
  {
    assert log == log0 + log[|log0|..];
    ReqItemsAppend(log0, log[|log0|..]);
  }

  // Posting again after failures.

  /** Post a confirmed tree, and post again what that has left, until a post succeeds, at most
      `attempts` times.  No entry that was ever sent dangles then, if and only if the copies
      arrive.  `m`, `middle` and `known` are the node, the log and what the client knew before
      the last post. */
  method PostUntil(repo: RemoteRepo, n: Node, attempts: nat)
    returns (ok: bool, ghost m: Node, ghost middle: seq<Req>, ghost known: set<Item>)
    requires repo.Valid() && Confirmed(repo.name, repo.Items(), n) && NoDangling(repo.base, repo.log)
    modifies repo
    ensures repo.Valid() && Moved(repo.name, n, m) && old(repo.log) <= middle <= repo.log
    ensures ok ==>
              (NoDangling(repo.base, repo.log) <==>
               CopiesArrive(repo.name, n, m, middle[|old(repo.log)|..],
                            Made(known, repo.name, m, |Requests(repo.name, m)|), repo.base + ReqItems(middle)))
  {
    hide Complete, Confirmed, ReqItems, InOrder, Requests, MarkTo, Total, DropsCopy, NoDangling, CopiesArrive, Postable, Moved, Made;
    ghost var first, log0 := repo.Items(), repo.log;
    var cur := n;
    ok, m, middle, known := false, n, repo.log, repo.Known();
    MovedNowhere(repo.name, n);
    for i := 0 to attempts
      invariant !ok && repo.Valid() && Moved(repo.name, n, cur) && Moved(repo.name, n, m)
      invariant log0 <= middle <= repo.log && first <= repo.Items()
      invariant forall r | r in repo.log[|log0|..] && r.PostEntry? :: r in Requests(repo.name, n)
    {
      m, middle, known := cur, repo.log, repo.Known();
      var id, n';
      ghost var k;
      ok, id, n', k := PostTree(repo, cur);
      ghost var reqs := Made(known, repo.name, m, k);
      MadeIsRequested(known, repo.name, m, k);
      LogItems(repo.base, middle, repo.log, reqs);
      StillRequested(repo.base, repo.name, n, m, log0, middle, repo.log, reqs);
      if ok {
        ghost var rs := Requests(repo.name, m);
        WholeIsMade(known, repo.name, m);
        RetryDanglesExactly(repo.name, n, m, known, first, repo.base, log0, middle, repo.log, reqs);
        return;
      }
      MarkToMoves(repo.name, cur, k);
      MovedTwice(repo.name, n, cur, n');
      cur := n';
    }
  }

  lemma WholeIsMade(known: set<Item>, repo: RepoName, m: Node)
    ensures Made(known, repo, m, |Requests(repo, m)|) == Add(known, [], Requests(repo, m))
  {
    assert Requests(repo, m)[..|Requests(repo, m)|] == Requests(repo, m);
  }

  lemma MadeIsRequested(known: set<Item>, repo: RepoName, m: Node, k: nat)
    requires k <= |Requests(repo, m)|
    ensures forall r | r in Made(known, repo, m, k) :: r in Requests(repo, m)
  {
    AddFacts(known, Requests(repo, m)[..k]);
  }

  /** Every attempt sends with content only entries that the tree itself asks for. */
  lemma StillRequested(
    base: set<Item>, repo: RepoName, n: Node, m: Node, log0: seq<Req>, middle: seq<Req>, log: seq<Req>, reqs: seq<Req>)
    requires Moved(repo, n, m) && log0 <= middle && Logged(base, middle, log, reqs)
    requires forall r | r in middle[|log0|..] && r.PostEntry? :: r in Requests(repo, n)
    requires forall r | r in reqs :: r in Requests(repo, m)
    ensures log0 <= log && forall r | r in log[|log0|..] && r.PostEntry? :: r in Requests(repo, n)
  {
    hide Requests, Moved, ReqItems;
    var sent := log[|log0|..];
    forall r | r in sent && r.PostEntry? ensures r in Requests(repo, n) {
      var i :| 0 <= i < |sent| && sent[i] == r;
      if |log0| + i < |middle| {
        assert middle[|log0|..][i] == r;
      } else {
        assert log[|log0| + i] in reqs;
        MovedBackPostsSame(repo, n, m, r.id);
      }
    }
  }

  /** A tree of another repo with one entry. */
  function ForeignTree(entry: Id): Node {
    Tree("t", "", [Raw(Ref(ObjectKind, entry))], Some("other"))
  }

  function MovedTree(entry: Id): Node {
    Tree("t", "", [Raw(Ref(ObjectKind, entry))], Some("target"))
  }

  lemma ForeignTreeRequests(entry: Id)
    ensures var n := ForeignTree(entry);
            && Requests("target", n) == [CopyEntry(entry, "other"), PostEntry(NodeId(n))]
            && Requests("target", MovedTree(entry)) == [PostEntry(NodeId(n))]
            && MarkTo("target", n, 2) == MovedTree(entry)
            && EntryItem(entry) in Refs(NodeId(n)) && entry != NodeId(n)
            && Postable(n) && Postable(MovedTree(entry))
  {
    var n, m := ForeignTree(entry), MovedTree(entry);
    assert n.entries[..0] == [] && m.entries == n.entries;
    assert SlotRefs(n.entries) == [Ref(ObjectKind, entry)];
    assert NodeId(m) == NodeId(n);
    assert SlotsRequests("target", n, 0) == [] && SlotsRequests("target", m, 0) == [];
    assert SlotRequests("target", n, 0) == [CopyEntry(entry, "other")];
    assert SlotsRequests("target", n, 1) == [CopyEntry(entry, "other")];
    assert SlotsRequests("target", m, 1) == [];
    assert MarkSlots("target", n.entries) == n.entries;
    assert Ref(ObjectKind, entry) in NodeId(n).entries;
    assert NodeId(n).TreeId? && NodeId(n).entries[0].id == entry;
  }

  lemma TotalOfTwo(size: Size, a: Req, b: Req)
    ensures Total(size, [a, b]) == size(a) + size(b) && Total(size, [a]) == size(a)
  {
    TotalOfOne(size, a);
    TotalOneMore(size, [a], b);
    assert [a] + [b] == [a, b];
  }

  lemma SentAlone(log: seq<Req>, r: Req)
    requires Logged({}, [], log, [r]) && ItemOf(r) in ReqItems(log)
    ensures r in log && ReqItems(log) == {ItemOf(r)}
  {
    var k :| 0 <= k < |log| && ItemOf(log[k]) == ItemOf(r);
    assert log[k] in [r];
    forall q | q in ReqItems(log) ensures q == ItemOf(r) {
      var j :| 0 <= j < |log| && ItemOf(log[j]) == q;
      assert log[j] in [r];
    }
  }

  /** A tree from another repo is posted; the flush fails; the retry succeeds.  The repo then
      has got the tree with its content, but it lacks the entry of the tree. */
  method RetryDangles(entry: Id) returns (ok: bool, retried: bool, repo: RemoteRepo)
    ensures fresh(repo) && !ok && retried
    ensures PostEntry(NodeId(ForeignTree(entry))) in repo.log && !(Refs(NodeId(ForeignTree(entry))) <= repo.Items())
    ensures !NoDangling(repo.base, repo.log)
  {
    hide Requests, MarkTo, Add, ReqItems, Refs, Postable, Complete, Confirmed, InOrder, Total, NodeId, Logged;
    var n := ForeignTree(entry);
    var size := (r: Req) => 1;
    repo := new RemoteRepo("target", size, {}, (i: nat) => if i == 0 then StatFails else NoFault);
    ForeignTreeRequests(entry);
    TotalOfTwo(size, CopyEntry(entry, "other"), PostEntry(NodeId(n)));
    TotalOfOne(size, PostEntry(NodeId(n)));
    var id, n', n'';
    ghost var k, k2;
    ok, id, n', k := PostTree(repo, n);
    assert n' == MovedTree(entry) && repo.log == [];
    ReqItemsOfOne(PostEntry(NodeId(n)));
    assert repo.Known() == {};
    AddOne({}, [], PostEntry(NodeId(n)));
    ghost var rs := Requests("target", n');
    assert rs[..|rs|] == rs == [PostEntry(NodeId(n))];
    retried, id, n'', k2 := PostTree(repo, n');
    assert [] + rs == rs;
    SentAlone(repo.log, PostEntry(NodeId(n)));
  }
}
