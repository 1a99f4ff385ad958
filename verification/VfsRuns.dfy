/**
 Whole runs of the virtual file system, commits that fail included, as a log of
 plain values: the pages of the live index, the buffered ones, the pages the root
 names, what is cached, and the page maps that were pinned.
 */
module VfsRuns {
  import opened Wrappers
  import opened ObjectStore
  import opened Vfs
  import PageIndex

  // ----- roots identify contents -----

  ghost function RootOf(hash: Blob -> Cid, pages: map<nat, Blob>): Cid
  {
    hash(PageIndex.Serialized(IndexOf(hash, pages)))
  }

  function IndexOf(hash: Blob -> Cid, pages: map<nat, Blob>): map<nat, Cid>
  {
    map p | p in pages :: hash(pages[p])
  }

  ghost predicate Numbered(pages: map<nat, Blob>)
  {
    forall p :: p in pages ==> p < PageIndex.PAGES
  }

  /** What committing these pages hashes. */
  ghost predicate Hashed(hash: Blob -> Cid, world: iset<Blob>, pages: map<nat, Blob>)
  {
    AllIn(pages, world) && PageIndex.Serialized(IndexOf(hash, pages)) in world
  }

  lemma IndexOfInjective(hash: Blob -> Cid, world: iset<Blob>, a: map<nat, Blob>, b: map<nat, Blob>)
    requires CollisionFree(hash, world) && AllIn(a, world) && AllIn(b, world) && IndexOf(hash, a) == IndexOf(hash, b)
    ensures a == b
  {
    var ia, ib := IndexOf(hash, a), IndexOf(hash, b);
    forall p ensures p in a <==> p in b { assert p in ia <==> p in ib; }
    forall p | p in a ensures a[p] == b[p] {
      assert ia[p] == ib[p];
      SameBlob(hash, world, a[p], b[p]);
    }
  }

  /** Two committed states have the same root exactly when they hold the same pages. */
  lemma RootsEqualIff(hash: Blob -> Cid, world: iset<Blob>, a: map<nat, Blob>, b: map<nat, Blob>)
    requires GoodHash(hash, world) && Numbered(a) && Numbered(b) && Hashed(hash, world, a) && Hashed(hash, world, b)
    ensures RootOf(hash, a) == RootOf(hash, b) <==> a == b
  {
    RootChangedIff(hash, world, IndexOf(hash, a), IndexOf(hash, b));
    if IndexOf(hash, a) == IndexOf(hash, b) { IndexOfInjective(hash, world, a, b); }
  }

  /** The index of a store in good order is the hash of every page it shows. */
  lemma IndexOfPages(hash: Blob -> Cid, disk: map<Cid, Blob>, entries: map<nat, Cid>)
    requires Named(hash, disk) && Resolves(disk, entries)
    ensures IndexOf(hash, PagesOf(disk, entries)) == entries
  {
  }

  // ----- operations and replies -----

  datatype Operation =
    | Read(page: nat)
    | Write(page: nat, data: Blob)
    | Commit(writes: nat -> ObjectStore.Write, indexWrite: ObjectStore.Write, collateral: nat -> set<Cid>)
    | Pin
    | Look(snapshot: nat, page: nat)
    | Foreign(data: Blob, write: ObjectStore.Write, others: set<Cid>)

  datatype Reply =
    | ReadDone(read: Answer<Blob>)
    | WriteDone(wrote: Answer<()>)
    | CommitDone(root: Answer<Cid>)
    | PinDone(pin: Answer<Cid>)
    | LookDone(found: Option<Blob>)
    | ForeignDone

  // ----- the state as plain values -----

  /** `named` is the page map that the last successful commit published. */
  datatype Moment = Moment(pages: map<nat, Blob>, dirty: map<nat, Blob>, named: Option<map<nat, Blob>>,
                           cached: map<(Cid, nat), Blob>, pinned: seq<map<nat, Blob>>)

  const START := Moment(map[], map[], None, map[], [])

  ghost function RootAt(hash: Blob -> Cid, m: Moment): Option<Cid>
  {
    if m.named.Some? then Some(RootOf(hash, m.named.value)) else None
  }

  /** The key under which a read looks into the cache. */
  ghost function KeyAt(hash: Blob -> Cid, m: Moment, page: nat): (Cid, nat)
  {
    (RootKeyOf(RootAt(hash, m)), page)
  }

  /** A cache may lose any entry but the one just stored. */
  predicate Stored(before: map<(Cid, nat), Blob>, after: map<(Cid, nat), Blob>, key: (Cid, nat), bytes: Blob)
  {
    && key in after && after[key] == bytes
    && forall q :: q in after && q != key ==> q in before && after[q] == before[q]
  }

  ghost predicate ReadMoves(hash: Blob -> Cid, m: Moment, page: nat, r: Answer<Blob>, m': Moment)
  {
    var key := KeyAt(hash, m, page);
    && m' == m.(cached := m'.cached)
    && r == (if key in m.cached then Good(m.cached[key]) else PageReply(m.pages, page))
    && (if key !in m.cached && page in m.pages then Stored(m.cached, m'.cached, key, m.pages[page])
        else m'.cached == m.cached)
  }

  /** `done` are the pages stored; the rest of the buffer is dropped. */
  ghost predicate CommitMoves(hash: Blob -> Cid, m: Moment, op: Operation, done: set<nat>, r: Answer<Cid>, m': Moment)
    requires op.Commit?
  {
    && done <= m.dirty.Keys
    && var pages := m.pages + Picked(m.dirty, done);
    if m.dirty == map[] then
      m' == m && r == if m.named.Some? then Good(RootOf(hash, m.named.value)) else Bad(NoRootCid)
    else if r.Good? then
      && done == m.dirty.Keys && r == Good(RootOf(hash, pages))
      && m' == m.(pages := pages, dirty := map[], named := Some(pages))
    else
      && r == Bad(StoreError) && m' == m.(pages := pages, dirty := map[])
      && !((forall i :: op.writes(i) == Written) && op.indexWrite == Written)
  }

  ghost predicate Moves(hash: Blob -> Cid, pageSize: nat, m: Moment, op: Operation, reply: Reply, m': Moment)
  {
    match op
    case Read(page) => reply.ReadDone? && ReadMoves(hash, m, page, reply.read, m')
    case Write(page, data) =>
      if |data| == pageSize then reply == WriteDone(Good(())) && m' == m.(dirty := m.dirty[page := data])
      else reply == WriteDone(Bad(InvalidPageSize(|data|))) && m' == m
    case Commit(_, _, _) => reply.CommitDone? && exists done :: CommitMoves(hash, m, op, done, reply.root, m')
    case Pin =>
      if m.named.Some? then
        reply == PinDone(Good(RootOf(hash, m.named.value))) && m' == m.(pinned := m.pinned + [m.pages])
      else reply == PinDone(Bad(NoRootCid)) && m' == m
    case Look(s, page) =>
      && reply == LookDone(if s < |m.pinned| && page in m.pinned[s] then Some(m.pinned[s][page]) else None)
      && m' == m
    case Foreign(_, _, _) => reply == ForeignDone && m' == m
  }

  // ----- what a run hashes -----

  ghost predicate IsWrite(ops: seq<Operation>, page: nat, data: Blob)
  {
    exists i :: 0 <= i < |ops| && ops[i] == Write(page, data)
  }

  /** Every page holds what some operation wrote to it. */
  ghost predicate WrittenBy(ops: seq<Operation>, pages: map<nat, Blob>)
  {
    forall p :: p in pages ==> IsWrite(ops, p, pages[p])
  }

  /** `world` holds all that the operations can make the file system hash. */
  ghost predicate Foreseeable(hash: Blob -> Cid, world: iset<Blob>, ops: seq<Operation>)
  {
    && (forall i :: 0 <= i < |ops| && ops[i].Write? ==> ops[i].page < PageIndex.PAGES && ops[i].data in world)
    && (forall i :: 0 <= i < |ops| && ops[i].Foreign? ==> ops[i].data in world)
    && (forall pages :: WrittenBy(ops, pages) ==> PageIndex.Serialized(IndexOf(hash, pages)) in world)
  }

  lemma WrittenIsHashed(hash: Blob -> Cid, world: iset<Blob>, ops: seq<Operation>, pages: map<nat, Blob>)
    requires Foreseeable(hash, world, ops) && WrittenBy(ops, pages)
    ensures Hashed(hash, world, pages) && Numbered(pages)
  {
    forall p | p in pages ensures pages[p] in world && p < PageIndex.PAGES {
      var i :| 0 <= i < |ops| && ops[i] == Write(p, pages[p]);
    }
  }

  ghost predicate MomentWritten(ops: seq<Operation>, m: Moment)
  {
    WrittenBy(ops, m.pages) && WrittenBy(ops, m.dirty) && (m.named.Some? ==> WrittenBy(ops, m.named.value))
  }

  lemma MovesWritten(hash: Blob -> Cid, pageSize: nat, ops: seq<Operation>, i: nat, m: Moment, reply: Reply, m': Moment)
    requires i < |ops| && MomentWritten(ops, m) && Moves(hash, pageSize, m, ops[i], reply, m')
    ensures MomentWritten(ops, m')
  {
    if ops[i].Write? { assert IsWrite(ops, ops[i].page, ops[i].data); }
  }

  // ----- the file system shows a moment -----

  ghost predicate Shows(vfs: CidVfs, m: Moment)
    reads vfs, vfs.store
  {
    && vfs.Valid() && vfs.Complete()
    && vfs.Pages() == m.pages && vfs.dirty == m.dirty && vfs.cache.values == m.cached
    && vfs.root == RootAt(vfs.store.hash, m)
  }

  ghost predicate Pinned(disk: map<Cid, Blob>, snaps: seq<Snapshot>, pinned: seq<map<nat, Blob>>)
  {
    |snaps| == |pinned| && forall i :: 0 <= i < |snaps| ==> ShowsAt(disk, snaps[i], pinned[i])
  }

  ghost predicate ShowsAt(disk: map<Cid, Blob>, snap: Snapshot, pages: map<nat, Blob>)
  {
    Resolves(disk, snap.entries) && PagesOf(disk, snap.entries) == pages
  }

  /** A snapshot keeps showing its pages however much is stored later. */
  lemma PinnedGrown(before: map<Cid, Blob>, after: map<Cid, Blob>, snaps: seq<Snapshot>, pinned: seq<map<nat, Blob>>)
    requires Pinned(before, snaps, pinned) && Grown(before, after)
    ensures Pinned(after, snaps, pinned)
  {
  }

  method Fresh(store: ContentAddressedStore, pageSize: nat, capacity: nat, ghost world: iset<Blob>)
    returns (r: Answer<CidVfs>)
    requires store.Valid() && store.Intact() && Within(store.disk, world) && GoodHash(store.hash, world)
    ensures r.Good? <==> pageSize in {512, 1024, 2048, 4096, 8192, 16384, 32768, 65536}
    ensures r.Good? ==> fresh(r.value) && r.value.store == store && r.value.pageSize == pageSize
    ensures r.Good? ==> r.value.world == world && Shows(r.value, START)
  {
    r := NewVfs(store, pageSize, capacity, world);
  }

  method ApplyRead(vfs: CidVfs, page: nat, ghost m: Moment) returns (r: Answer<Blob>, ghost m': Moment)
    requires Shows(vfs, m)
    modifies vfs`cache, vfs.store
    ensures Shows(vfs, m') && ReadMoves(vfs.store.hash, m, page, r, m') && vfs.store.disk == old(vfs.store.disk)
  {
    r := vfs.ReadPage(page);
    m' := m.(cached := vfs.cache.values);
  }

  lemma ForeseenCommit(vfs: CidVfs, m: Moment)
    requires Shows(vfs, m) && Hashed(vfs.store.hash, vfs.world, m.pages + m.dirty)
    ensures Foreseen(vfs.store.hash, vfs.world, vfs.entries, vfs.dirty)
  {
    IndexOfPages(vfs.store.hash, vfs.store.disk, vfs.entries);
    EnteredAll(vfs.store.hash, vfs.entries, m.pages, m.dirty);
    forall p | p in m.dirty ensures m.dirty[p] in vfs.world { assert (m.pages + m.dirty)[p] == m.dirty[p]; }
  }

  lemma EnteredAll(hash: Blob -> Cid, entries: map<nat, Cid>, pages: map<nat, Blob>, batch: map<nat, Blob>)
    requires entries == IndexOf(hash, pages)
    ensures Entered(hash, entries, batch, batch.Keys) == IndexOf(hash, pages + batch)
  {
  }

  /** A commit in terms of the pages shown. */
  method CommitPages(vfs: CidVfs, op: Operation) returns (r: Answer<Cid>, ghost done: set<nat>)
    requires op.Commit? && vfs.Valid() && vfs.Complete()
    requires Foreseen(vfs.store.hash, vfs.world, vfs.entries, vfs.dirty)
    modifies vfs, vfs.store
    ensures vfs.Valid() && vfs.Complete() && Grown(old(vfs.store.disk), vfs.store.disk)
    ensures vfs.dirty == map[] && vfs.cache == old(vfs.cache)
    ensures done <= old(vfs.dirty).Keys && vfs.Pages() == old(vfs.Pages()) + Picked(old(vfs.dirty), done)
    ensures old(vfs.dirty) == map[] ==>
      vfs.root == old(vfs.root) && r == if vfs.root.Some? then Good(vfs.root.value) else Bad(NoRootCid)
    ensures old(vfs.dirty) != map[] && r.Good? ==>
      && done == old(vfs.dirty).Keys && vfs.root == Some(r.value)
      && r.value == RootOf(vfs.store.hash, vfs.Pages())
    ensures old(vfs.dirty) != map[] && r.Bad? ==>
      && r == Bad(StoreError) && vfs.root == old(vfs.root)
      && !((forall i :: op.writes(i) == Written) && op.indexWrite == Written)
  {
    r, done := vfs.Commit(op.writes, op.indexWrite, op.collateral);
    IndexOfPages(vfs.store.hash, vfs.store.disk, vfs.entries);
  }

  method ApplyCommit(vfs: CidVfs, op: Operation, ghost m: Moment)
    returns (r: Answer<Cid>, ghost done: set<nat>, ghost m': Moment)
    requires op.Commit? && Shows(vfs, m) && Hashed(vfs.store.hash, vfs.world, m.pages + m.dirty)
    modifies vfs, vfs.store
    ensures Shows(vfs, m') && Grown(old(vfs.store.disk), vfs.store.disk) && m'.pinned == m.pinned
    ensures CommitMoves(vfs.store.hash, m, op, done, r, m')
  {
    ForeseenCommit(vfs, m);
    r, done := CommitPages(vfs, op);
    m' := m.(pages := vfs.Pages(), dirty := map[]);
    if m.dirty == map[] {
      assert Picked(m.dirty, done) == map[];
      m' := m;
    } else if r.Good? {
      m' := m'.(named := Some(vfs.Pages()));
    }
  }

  method ApplyForeign(vfs: CidVfs, data: Blob, write: ObjectStore.Write, others: set<Cid>, ghost m: Moment)
    requires Shows(vfs, m) && data in vfs.world
    modifies vfs.store
    ensures Shows(vfs, m) && Grown(old(vfs.store.disk), vfs.store.disk)
  {
    var _, _ := vfs.store.Put(data, write, others);
    PagesGrown(old(vfs.store.disk), vfs.store.disk, vfs.entries);
  }

  method ApplyLook(vfs: CidVfs, snaps: seq<Snapshot>, s: nat, page: nat, ghost m: Moment) returns (r: Option<Blob>)
    requires Shows(vfs, m) && Pinned(vfs.store.disk, snaps, m.pinned)
    modifies vfs.store
    ensures Shows(vfs, m) && vfs.store.disk == old(vfs.store.disk)
    ensures r == if s < |m.pinned| && page in m.pinned[s] then Some(m.pinned[s][page]) else None
  {
    if s >= |snaps| {
      return None;
    }
    assert ShowsAt(vfs.store.disk, snaps[s], m.pinned[s]);
    match snaps[s].ResolvePage(page) {
      case None => r := None;
      case Some(cid) =>
        var got := vfs.store.Get(cid);
        r := got.value;
    }
  }

  method ApplyPin(vfs: CidVfs, snaps: seq<Snapshot>, ghost m: Moment)
    returns (reply: Reply, snaps': seq<Snapshot>, ghost m': Moment)
    requires Shows(vfs, m) && Pinned(vfs.store.disk, snaps, m.pinned)
    ensures Shows(vfs, m') && Pinned(vfs.store.disk, snaps', m'.pinned)
    ensures Moves(vfs.store.hash, vfs.pageSize, m, Pin, reply, m')
  {
    var pin := vfs.TakeSnapshot();
    if pin.Bad? {
      return PinDone(Bad(pin.error)), snaps, m;
    }
    assert ShowsAt(vfs.store.disk, pin.value, m.pages);
    return PinDone(Good(pin.value.rootCid)), snaps + [pin.value], m.(pinned := m.pinned + [m.pages]);
  }

  /** What an operation needs of the world. */
  ghost predicate Expected(vfs: CidVfs, m: Moment, op: Operation)
  {
    match op
    case Write(page, _) => page < PageIndex.PAGES
    case Commit(_, _, _) => Hashed(vfs.store.hash, vfs.world, m.pages + m.dirty)
    case Foreign(data, _, _) => data in vfs.world
    case _ => true
  }

  method Apply(vfs: CidVfs, snaps: seq<Snapshot>, op: Operation, ghost m: Moment)
    returns (reply: Reply, snaps': seq<Snapshot>, ghost m': Moment)
    requires Shows(vfs, m) && Pinned(vfs.store.disk, snaps, m.pinned) && Expected(vfs, m, op)
    modifies vfs, vfs.store
    ensures Shows(vfs, m') && Pinned(vfs.store.disk, snaps', m'.pinned)
    ensures Moves(vfs.store.hash, vfs.pageSize, m, op, reply, m')
  {
    snaps', m' := snaps, m;
    match op {
      case Read(page) =>
        var r;
        r, m' := ApplyRead(vfs, page, m);
        reply := ReadDone(r);
      case Write(page, data) =>
        var r := vfs.WritePage(page, data);
        m' := m.(dirty := vfs.dirty);
        reply := WriteDone(r);
      case Commit(_, _, _) =>
        var r;
        ghost var done;
        r, done, m' := ApplyCommit(vfs, op, m);
        PinnedGrown(old(vfs.store.disk), vfs.store.disk, snaps, m.pinned);
        assert CommitMoves(vfs.store.hash, m, op, done, r, m');
        reply := CommitDone(r);
      case Pin =>
        reply, snaps', m' := ApplyPin(vfs, snaps, m);
      case Look(s, page) =>
        var r := ApplyLook(vfs, snaps, s, page, m);
        reply := LookDone(r);
      case Foreign(data, write, others) =>
        ApplyForeign(vfs, data, write, others, m);
        PinnedGrown(old(vfs.store.disk), vfs.store.disk, snaps, m.pinned);
        reply := ForeignDone;
    }
  }

  // ----- logs -----

  /** The moments before, between and after the operations of a run. */
  ghost predicate IsLog(hash: Blob -> Cid, pageSize: nat, log: seq<Moment>, ops: seq<Operation>, replies: seq<Reply>)
  {
    && |log| == |ops| + 1 && |replies| == |ops| && log[0] == START
    && forall i :: 0 <= i < |ops| ==> MovesAt(hash, pageSize, log, ops, replies, i)
  }

  ghost predicate MovesAt(hash: Blob -> Cid, pageSize: nat, log: seq<Moment>, ops: seq<Operation>,
                          replies: seq<Reply>, i: nat)
    requires i < |ops| && i < |replies| && i + 1 < |log|
  {
    Moves(hash, pageSize, log[i], ops[i], replies[i], log[i + 1])
  }

  lemma ExpectedNext(vfs: CidVfs, ops: seq<Operation>, i: nat, m: Moment)
    requires Foreseeable(vfs.store.hash, vfs.world, ops) && i < |ops| && MomentWritten(ops, m)
    ensures Expected(vfs, m, ops[i])
  {
    assert WrittenBy(ops, m.pages + m.dirty);
    WrittenIsHashed(vfs.store.hash, vfs.world, ops, m.pages + m.dirty);
  }

  /** Every run from an empty file system has a log, whatever writes fail and whatever others store meanwhile. */
  method Run(vfs: CidVfs, ops: seq<Operation>) returns (replies: seq<Reply>, ghost log: seq<Moment>)
    requires Shows(vfs, START) && Foreseeable(vfs.store.hash, vfs.world, ops)
    modifies vfs, vfs.store
    ensures IsLog(vfs.store.hash, vfs.pageSize, log, ops, replies) && Shows(vfs, log[|ops|])
  {
    replies, log := [], [START];
    var snaps := [];
    for n := 0 to |ops|
      invariant |replies| == n && |log| == n + 1 && log[0] == START
      invariant Shows(vfs, log[n]) && Pinned(vfs.store.disk, snaps, log[n].pinned) && MomentWritten(ops, log[n])
      invariant forall i :: 0 <= i < n ==> MovesAt(vfs.store.hash, vfs.pageSize, log, ops, replies, i)
    {
      ExpectedNext(vfs, ops, n, log[n]);
      var reply;
      ghost var m;
      reply, snaps, m := Apply(vfs, snaps, ops[n], log[n]);
      MovesWritten(vfs.store.hash, vfs.pageSize, ops, n, log[n], reply, m);
      ghost var before := log;
      ghost var earlier := replies;
      replies, log := replies + [reply], log + [m];
      forall i | 0 <= i < n ensures MovesAt(vfs.store.hash, vfs.pageSize, log, ops, replies, i) {
        assert MovesAt(vfs.store.hash, vfs.pageSize, before, ops, earlier, i);
      }
    }
  }
}
