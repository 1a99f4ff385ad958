/**
 The failing case in the concrete: a commit that fails after its page is stored, a
 read, and a commit that returns to the old root.
 */
module VfsFailure {
  import opened Bytes
  import opened Wrappers
  import opened ObjectStore
  import opened Vfs
  import opened Listings
  import PageIndex
  import VfsHistory
  import opened VfsRuns

  const ALL_WRITTEN: nat -> Write := _ => Written
  const NO_COLLATERAL: nat -> set<Cid> := _ => {}

  lemma OnePage(hash: Blob -> Cid, entries: map<nat, Cid>, pages: map<nat, Blob>, page: nat, b: Blob)
    ensures var batch := map[page := b];
      && Picked(batch, batch.Keys) == batch && pages + batch == pages[page := b]
      && Entered(hash, entries, batch, batch.Keys) == entries[page := hash(b)]
  {
  }

  /** What committing the page hashes. */
  ghost predicate PageForeseen(vfs: CidVfs, page: nat, b: Blob)
    reads vfs, vfs.store
  {
    b in vfs.world && PageIndex.Serialized(vfs.entries[page := vfs.store.hash(b)]) in vfs.world
  }

  ghost predicate Ready(vfs: CidVfs, page: nat, b: Blob)
    reads vfs, vfs.store
  {
    && vfs.Valid() && vfs.Complete() && vfs.dirty == map[]
    && page < PageIndex.PAGES && |b| == vfs.pageSize && PageForeseen(vfs, page, b)
  }

  method BufferOne(vfs: CidVfs, page: nat, b: Blob)
    requires Ready(vfs, page, b)
    modifies vfs`dirty
    ensures vfs.Valid() && vfs.Complete() && vfs.Pages() == old(vfs.Pages())
    ensures vfs.dirty == map[page := b] && vfs.dirty != map[]
    ensures Foreseen(vfs.store.hash, vfs.world, vfs.entries, vfs.dirty)
  {
    var _ := vfs.WritePage(page, b);
    OnePage(vfs.store.hash, vfs.entries, map[], page, b);
    assert vfs.dirty == map[page := b] && page in vfs.dirty;
  }

  /** A commit of one page that succeeds. */
  method CommitOne(vfs: CidVfs, page: nat, b: Blob) returns (r: Answer<Cid>)
    requires Ready(vfs, page, b)
    modifies vfs, vfs.store
    ensures vfs.Valid() && vfs.Complete() && vfs.dirty == map[] && vfs.cache == old(vfs.cache)
    ensures vfs.Settled() <==> old(vfs.HonestCache())
    ensures vfs.entries == old(vfs.entries)[page := vfs.store.hash(b)] && vfs.Pages() == old(vfs.Pages())[page := b]
    ensures r == Good(vfs.store.hash(PageIndex.Serialized(vfs.entries))) && vfs.root == Some(r.value)
    ensures forall c :: c in vfs.store.disk ==> c in old(vfs.store.disk) || c == vfs.store.hash(b) || c == r.value
  {
    BufferOne(vfs, page, b);
    OnePage(vfs.store.hash, vfs.entries, vfs.Pages(), page, b);
    ghost var done;
    r, done := vfs.Commit(ALL_WRITTEN, Written, NO_COLLATERAL);
  }

  /** A commit of one page whose index cannot be written. */
  method FailOne(vfs: CidVfs, page: nat, b: Blob) returns (r: Answer<Cid>)
    requires Ready(vfs, page, b)
    requires IndexFails(vfs.store.hash, vfs.store.disk, vfs.entries, map[page := b], ALL_WRITTEN, Failed)
    modifies vfs, vfs.store
    ensures vfs.Valid() && vfs.Complete() && vfs.dirty == map[] && vfs.cache == old(vfs.cache)
    ensures vfs.entries == old(vfs.entries)[page := vfs.store.hash(b)] && vfs.Pages() == old(vfs.Pages())[page := b]
    ensures r == Bad(StoreError) && vfs.root == old(vfs.root)
  {
    BufferOne(vfs, page, b);
    OnePage(vfs.store.hash, vfs.entries, vfs.Pages(), page, b);
    ghost var done;
    r, done := vfs.Commit(ALL_WRITTEN, Failed, NO_COLLATERAL);
  }

  lemma PutBack<V>(m: map<nat, V>, page: nat, v: V, m': map<nat, V>)
    requires page in m && m' == m[page := v]
    ensures m'[page := m[page]] == m
  {
  }

  /** A read past the cache. */
  method ReadOne(vfs: CidVfs, page: nat, b: Blob) returns (r: Answer<Blob>)
    requires vfs.Valid() && vfs.Complete() && page in vfs.Pages() && vfs.Pages()[page] == b
    requires (vfs.RootKey(), page) !in vfs.cache.values
    modifies vfs`cache, vfs.store
    ensures vfs.Valid() && vfs.Complete() && vfs.Pages() == old(vfs.Pages()) && r == Good(b)
    ensures (vfs.RootKey(), page) in vfs.cache.values && vfs.cache.values[(vfs.RootKey(), page)] == b
  {
    r := vfs.ReadPage(page);
  }

  /** The commit of `b` fails, and a read caches it under the old root. */
  method FailAndRead(vfs: CidVfs, page: nat, b: Blob) returns (failed: Answer<Cid>, first: Answer<Blob>)
    requires Ready(vfs, page, b) && (vfs.RootKey(), page) !in vfs.cache.values
    requires IndexFails(vfs.store.hash, vfs.store.disk, vfs.entries, map[page := b], ALL_WRITTEN, Failed)
    modifies vfs, vfs.store
    ensures vfs.Valid() && vfs.Complete() && vfs.dirty == map[] && vfs.root == old(vfs.root)
    ensures vfs.entries == old(vfs.entries)[page := vfs.store.hash(b)] && vfs.Pages() == old(vfs.Pages())[page := b]
    ensures (vfs.RootKey(), page) in vfs.cache.values && vfs.cache.values[(vfs.RootKey(), page)] == b
    ensures failed == Bad(StoreError) && first == Good(b)
  {
    failed := FailOne(vfs, page, b);
    first := ReadOne(vfs, page, b);
  }

  /** A commit that brings back the root under which other bytes are cached. */
  method ReturnAndRead(vfs: CidVfs, page: nat, a: Blob, b: Blob) returns (back: Answer<Cid>, second: Answer<Blob>)
    requires Ready(vfs, page, a) && vfs.root.Some? && a != b
    requires vfs.root.value == vfs.store.hash(PageIndex.Serialized(vfs.entries[page := vfs.store.hash(a)]))
    requires (vfs.RootKey(), page) in vfs.cache.values && vfs.cache.values[(vfs.RootKey(), page)] == b
    modifies vfs, vfs.store
    ensures vfs.root == old(vfs.root) && back == Good(vfs.root.value) && vfs.Complete()
    ensures vfs.Pages() == old(vfs.Pages())[page := a] && second == Good(b) && !vfs.Settled()
  {
    back := CommitOne(vfs, page, a);
    second := vfs.ReadPage(page);
    if vfs.Settled() { vfs.CachedPage(page); }
  }

  /**
   The root shows `a` for a page that is not cached.  A commit of `b` fails at the
   index, a read caches `b` under the root, and a successful commit of `a` brings the
   same root back.  The pages are the old ones, but the next read returns `b`.
   */
  method ReturnAfterFailure(vfs: CidVfs, page: nat, a: Blob, b: Blob)
    returns (failed: Answer<Cid>, first: Answer<Blob>, back: Answer<Cid>, second: Answer<Blob>)
    requires Ready(vfs, page, b) && vfs.Settled() && vfs.root.Some?
    requires page in vfs.Pages() && vfs.Pages()[page] == a && |a| == vfs.pageSize && a != b
    requires (vfs.RootKey(), page) !in vfs.cache.values
    requires IndexFails(vfs.store.hash, vfs.store.disk, vfs.entries, map[page := b], ALL_WRITTEN, Failed)
    modifies vfs, vfs.store
    ensures failed == Bad(StoreError) && first == Good(b)
    ensures vfs.root == old(vfs.root) && back == Good(vfs.root.value)
    ensures vfs.Complete() && vfs.Pages() == old(vfs.Pages()) && second == Good(b) && !vfs.Settled()
  {
    ghost var entries, pages := vfs.entries, vfs.Pages();
    failed, first := FailAndRead(vfs, page, b);
    PutBack(entries, page, vfs.store.hash(b), vfs.entries);
    PutBack(pages, page, b, vfs.Pages());
    back, second := ReturnAndRead(vfs, page, a, b);
  }

  // ----- with a hash and pages at hand -----

  function Page(x: byte): (d: Blob)
    ensures |d| == 512
  {
    seq<byte>(512, _ => x)
  }

  /** A hash that tells the two pages and their two indexes apart. */
  function Tag(d: Blob): byte
  {
    if |d| == 512 then d[0] else if |d| == 40 then (if d[8] == 1 then 11 else 12) else 0
  }

  function Toy(d: Blob): (c: Cid)
    ensures |c| == PageIndex.CID_SIZE && c[0] == Tag(d)
  {
    [Tag(d)] + seq<byte>(31, _ => 0)
  }

  function IndexFor(x: byte): map<nat, Cid>
  {
    map[0 := Toy(Page(x))]
  }

  lemma IndexTag(x: byte)
    ensures PageIndex.IsIndex(IndexFor(x)) && |PageIndex.Serialized(IndexFor(x))| == 40
    ensures Tag(PageIndex.Serialized(IndexFor(x))) == if x == 1 then 11 else 12
  {
    var m := IndexFor(x);
    assert Listing([0], m.Keys);
    assert |m| == 1;
    assert PageIndex.Entries(m, [0]) == PageIndex.Entries(m, []) + PageIndex.Le4(0) + m[0];
    assert PageIndex.Serialized(m) == PageIndex.Le4(1) + PageIndex.Entries(m, [0]);
    assert PageIndex.Serialized(m)[8] == m[0][0] == x;
  }

  lemma EmptyTag()
    ensures PageIndex.IsIndex(map[]) && Tag(PageIndex.Serialized(map[])) == 0
  {
    var m: map<nat, Cid> := map[];
    assert Listing([], m.Keys);
    assert PageIndex.Serialized(m) == PageIndex.Le4(0) + PageIndex.Entries(m, []);
  }

  ghost function World(): iset<Blob>
  {
    iset{Page(1), Page(2), PageIndex.Serialized(map[]), PageIndex.Serialized(IndexFor(1)),
         PageIndex.Serialized(IndexFor(2))}
  }

  lemma ToyIsGood()
    ensures GoodHash(Toy, World())
  {
    EmptyTag();
    IndexTag(1);
    IndexTag(2);
    forall a, b | a in World() && b in World() && Toy(a) == Toy(b) ensures a == b {
      assert Tag(a) == Tag(b);
    }
  }

  lemma SecondIndexFails(disk: map<Cid, Blob>)
    requires forall c :: c in disk ==> c == Toy(Page(1)) || c == Toy(PageIndex.Serialized(IndexFor(1)))
    ensures IndexFails(Toy, disk, IndexFor(1), map[0 := Page(2)], ALL_WRITTEN, Failed)
  {
    IndexTag(1);
    IndexTag(2);
    var batch: map<nat, Blob> := map[0 := Page(2)];
    OnePage(Toy, IndexFor(1), map[], 0, Page(2));
    assert Entered(Toy, IndexFor(1), batch, batch.Keys) == IndexFor(2);
    var index := Toy(PageIndex.Serialized(IndexFor(2)));
    assert index[0] == 12;
    forall c | PageHash(Toy, batch, c) ensures c[0] == 2 {
      var p :| p in batch && Toy(batch[p]) == c;
    }
  }

  /** An empty file system over an empty store. */
  method Start() returns (vfs: CidVfs)
    ensures fresh(vfs) && fresh(vfs.store) && vfs.store.hash == Toy && vfs.world == World() && vfs.pageSize == 512
    ensures Ready(vfs, 0, Page(1)) && vfs.entries == map[] && vfs.cache.values == map[] && vfs.store.disk == map[]
  {
    ToyIsGood();
    var store := new ContentAddressedStore(Toy, 1, map[], {});
    var made := NewVfs(store, 512, 1, World());
    vfs := made.value;
    assert vfs.entries[0 := Toy(Page(1))] == IndexFor(1);
  }

  method FirstCommit(vfs: CidVfs) returns (root: Answer<Cid>)
    requires vfs.store.hash == Toy && vfs.world == World() && vfs.pageSize == 512
    requires Ready(vfs, 0, Page(1)) && vfs.entries == map[] && vfs.cache.values == map[] && vfs.store.disk == map[]
    modifies vfs, vfs.store
    ensures Ready(vfs, 0, Page(2)) && vfs.Settled() && vfs.cache.values == map[]
    ensures vfs.entries == IndexFor(1) && vfs.Pages() == map[0 := Page(1)]
    ensures root == Good(Toy(PageIndex.Serialized(IndexFor(1)))) && vfs.root == Some(root.value)
    ensures forall c :: c in vfs.store.disk ==> c == Toy(Page(1)) || c == Toy(PageIndex.Serialized(IndexFor(1)))
  {
    ghost var none: map<nat, Blob> := map[];
    assert vfs.Pages() == none;
    root := CommitOne(vfs, 0, Page(1));
    assert none[0 := Page(1)] == map[0 := Page(1)];
    ghost var first: map<nat, Cid> := IndexFor(1);
    assert vfs.entries == first;
    assert first[0 := Toy(Page(2))] == IndexFor(2);
  }

  // ----- the same run as a log -----

  function StaleOps(a: Blob, b: Blob): seq<VfsRuns.Operation>
  {
    [VfsRuns.Write(0, a), Commit(ALL_WRITTEN, Written, NO_COLLATERAL),
     VfsRuns.Write(0, b), Commit(ALL_WRITTEN, Failed, NO_COLLATERAL), VfsRuns.Read(0),
     VfsRuns.Write(0, a), Commit(ALL_WRITTEN, Written, NO_COLLATERAL), VfsRuns.Read(0)]
  }

  ghost function StaleReplies(hash: Blob -> Cid, a: Blob, b: Blob): seq<VfsRuns.Reply>
  {
    var root := CommitDone(Good(RootOf(hash, map[0 := a])));
    [WriteDone(Good(())), root, WriteDone(Good(())), CommitDone(Bad(StoreError)), ReadDone(Good(b)),
     WriteDone(Good(())), root, ReadDone(Good(b))]
  }

  ghost function StaleLog(hash: Blob -> Cid, a: Blob, b: Blob): seq<Moment>
  {
    var pa, pb: map<nat, Blob> := map[0 := a], map[0 := b];
    var cached := map[(RootKeyOf(Some(RootOf(hash, pa))), 0) := b];
    [START, Moment(map[], pa, None, map[], []), Moment(pa, map[], Some(pa), map[], []),
     Moment(pa, pb, Some(pa), map[], []), Moment(pb, map[], Some(pa), map[], []),
     Moment(pb, map[], Some(pa), cached, []), Moment(pb, pa, Some(pa), cached, []),
     Moment(pa, map[], Some(pa), cached, []), Moment(pa, map[], Some(pa), cached, [])]
  }

  ghost function StaleHistory(hash: Blob -> Cid, pageSize: nat, a: Blob, b: Blob): VfsHistory.History
  {
    VfsHistory.History(hash, pageSize, StaleLog(hash, a, b), StaleOps(a, b), StaleReplies(hash, a, b))
  }

  /** A write, and a commit of what was written, of page 0 alone. */
  lemma BufferMoves(hash: Blob -> Cid, pageSize: nat, m: Moment, d: Blob)
    requires |d| == pageSize && m.dirty == map[]
    ensures Moves(hash, pageSize, m, VfsRuns.Write(0, d), WriteDone(Good(())), m.(dirty := map[0 := d]))
  {
    assert m.dirty[0 := d] == map[0 := d];
  }

  lemma CommitOneMoves(hash: Blob -> Cid, pageSize: nat, m: Moment, d: Blob)
    requires m.dirty == map[0 := d] && m.pages.Keys <= {0}
    ensures Moves(hash, pageSize, m, Commit(ALL_WRITTEN, Written, NO_COLLATERAL),
                  CommitDone(Good(RootOf(hash, map[0 := d]))),
                  m.(pages := map[0 := d], dirty := map[], named := Some(map[0 := d])))
    ensures Moves(hash, pageSize, m, Commit(ALL_WRITTEN, Failed, NO_COLLATERAL), CommitDone(Bad(StoreError)),
                  m.(pages := map[0 := d], dirty := map[]))
  {
    assert 0 in m.dirty;
    assert Picked(m.dirty, m.dirty.Keys) == m.dirty && m.pages + m.dirty == map[0 := d];
    assert CommitMoves(hash, m, Commit(ALL_WRITTEN, Written, NO_COLLATERAL), m.dirty.Keys,
                       Good(RootOf(hash, map[0 := d])),
                       m.(pages := map[0 := d], dirty := map[], named := Some(map[0 := d])));
    assert CommitMoves(hash, m, Commit(ALL_WRITTEN, Failed, NO_COLLATERAL), m.dirty.Keys, Bad(StoreError),
                       m.(pages := map[0 := d], dirty := map[]));
  }

  lemma StaleMoves(hash: Blob -> Cid, pageSize: nat, a: Blob, b: Blob, i: nat)
    requires |a| == pageSize && |b| == pageSize && i < 8
    ensures MovesAt(hash, pageSize, StaleLog(hash, a, b), StaleOps(a, b), StaleReplies(hash, a, b), i)
  {
    var m := StaleLog(hash, a, b)[i];
    if i == 0 || i == 5 { BufferMoves(hash, pageSize, m, a); }
    if i == 2 { BufferMoves(hash, pageSize, m, b); }
    if i == 1 || i == 6 { CommitOneMoves(hash, pageSize, m, a); }
    if i == 3 { CommitOneMoves(hash, pageSize, m, b); }
  }

  lemma StaleIsForeseen(ops: seq<VfsRuns.Operation>)
    requires ops == StaleOps(Page(1), Page(2))
    ensures Foreseeable(Toy, World(), ops)
  {
    forall pages | WrittenBy(ops, pages) ensures PageIndex.Serialized(IndexOf(Toy, pages)) in World() {
      forall p | p in pages ensures p == 0 && (pages[p] == Page(1) || pages[p] == Page(2)) {
        assert IsWrite(ops, p, pages[p]);
      }
      var index := IndexOf(Toy, pages);
      assert index == map[] || index == IndexFor(1) || index == IndexFor(2);
    }
  }

  /** That run is one `VfsHistory.ReadRightIff` speaks of, and its last read has an intrusion: operation 3 failed,
      operation 4 read what it left, operation 7 reads it again. */
  lemma StaleIntrusion()
    ensures var h := StaleHistory(Toy, 512, Page(1), Page(2));
            && h.Valid(World()) && h.IsRead(7, 0) && VfsHistory.Intrusion(h, 3, 4, 7, 0)
            && h.replies[7] != ReadDone(PageReply(VfsHistory.NamedPages(h.log[7]), 0))
  {
    var h := StaleHistory(Toy, 512, Page(1), Page(2));
    ToyIsGood();
    StaleIsForeseen(h.ops);
    forall i | 0 <= i < |h.ops| ensures MovesAt(Toy, 512, h.log, h.ops, h.replies, i) {
      StaleMoves(Toy, 512, Page(1), Page(2), i);
    }
    assert Page(1)[0] != Page(2)[0];
    assert VfsHistory.Intrusion(h, 3, 4, 7, 0);
    VfsHistory.ReadRightIff(h, World(), 7, 0);
  }

  ghost predicate StaleReplied(root: Answer<Cid>, failed: Answer<Cid>, back: Answer<Cid>, read: Answer<Blob>)
  {
    var replies := StaleReplies(Toy, Page(1), Page(2));
    && replies[1] == CommitDone(root) && replies[3] == CommitDone(failed)
    && replies[6] == CommitDone(back) && replies[7] == ReadDone(read)
  }

  lemma RepliedAsLogged(root: Cid)
    requires root == Toy(PageIndex.Serialized(IndexFor(1)))
    ensures StaleReplied(Good(root), Bad(StoreError), Good(root), Good(Page(2)))
  {
    assert IndexOf(Toy, map[0 := Page(1)]) == IndexFor(1);
  }

  /**
   Commit page 1; fail to commit page 2; read; commit page 1 again; read.  The root is
   the first one, and the read returns page 2.  The replies are those of the log.
   */
  method StaleRead() returns (root: Answer<Cid>, failed: Answer<Cid>, back: Answer<Cid>, read: Answer<Blob>)
    ensures root.Good? && failed == Bad(StoreError) && back == root
    ensures read == Good(Page(2)) && read != Good(Page(1)) && StaleReplied(root, failed, back, read)
  {
    var vfs := Start();
    root := FirstCommit(vfs);
    SecondIndexFails(vfs.store.disk);
    RepliedAsLogged(root.value);
    var a, b := Page(1), Page(2);
    assert a[0] != b[0];
    var first;
    failed, first, back, read := ReturnAfterFailure(vfs, 0, a, b);
  }
}
