/**
 The virtual file system for database pages: reads through a cache keyed by root
 and page, buffered writes, commits that produce a new root, and snapshots.

 What the file system makes of the n-th write of a commit is a parameter.
 */
module Vfs {
  import opened Arithmetic
  import opened Bytes
  import opened Wrappers
  import opened Lru
  import opened ObjectStore
  import PageIndex

  datatype VfsError =
    | PageNotFound(page: nat)
    | StoreError
    | NoRootCid
    | InvalidPageSize(size: nat)

  datatype Answer<T> = Good(value: T) | Bad(error: VfsError)

  /** The state pinned at one moment. */
  datatype Snapshot = Snapshot(rootCid: Cid, entries: map<nat, Cid>) {
    function ResolvePage(page: nat): (r: Option<Cid>)
      ensures r.None? <==> page !in entries
    {
      if page in entries then Some(entries[page]) else None
    }
  }

  /** Without a root, pages are looked up under the identifier of 32 zero bytes. */
  function RootKeyOf(root: Option<Cid>): Cid
  {
    if root.Some? then root.value else seq<byte>(PageIndex.CID_SIZE, _ => 0)
  }

  /** What a read makes of the cache. */
  function CacheAfter(cache: Lru<(Cid, nat), Blob>, key: (Cid, nat), r: Answer<Blob>): Lru<(Cid, nat), Blob>
    requires cache.Valid()
  {
    if key in cache.values then cache.Touch(key) else if r.Good? then cache.Put(key, r.value) else cache
  }

  ghost predicate GoodHash(hash: Blob -> Cid, world: iset<Blob>)
  {
    CollisionFree(hash, world) && forall d :: |hash(d)| == PageIndex.CID_SIZE
  }

  ghost predicate AllIn(pages: map<nat, Blob>, world: iset<Blob>)
  {
    forall p :: p in pages ==> pages[p] in world
  }

  /** What committing the batch will hash: its pages and the new index. */
  ghost predicate Foreseen(hash: Blob -> Cid, world: iset<Blob>, entries: map<nat, Cid>, batch: map<nat, Blob>)
  {
    && AllIn(batch, world)
    && (batch != map[] ==> PageIndex.Serialized(Entered(hash, entries, batch, batch.Keys)) in world)
  }

  /** The index with the first-stored pages of a batch entered. */
  function Entered(hash: Blob -> Cid, entries: map<nat, Cid>, batch: map<nat, Blob>, done: set<nat>): map<nat, Cid>
    requires done <= batch.Keys
  {
    entries + map p | p in done :: hash(batch[p])
  }

  function PageReply(pages: map<nat, Blob>, page: nat): Answer<Blob>
  {
    if page in pages then Good(pages[page]) else Bad(PageNotFound(page))
  }

  /** Whatever index a cached entry's root names, the cached bytes are that index's page. */
  ghost predicate Honest(hash: Blob -> Cid, world: iset<Blob>, cached: map<(Cid, nat), Blob>)
  {
    forall key, e {:trigger Names(hash, world, key.0, e), cached[key]} ::
      key in cached && Names(hash, world, key.0, e) ==> key.1 in e && e[key.1] == hash(cached[key])
  }

  /** `root` is the hash of the index `e`. */
  ghost predicate Names(hash: Blob -> Cid, world: iset<Blob>, root: Cid, e: map<nat, Cid>)
  {
    PageIndex.IsIndex(e) && PageIndex.Serialized(e) in world && root == hash(PageIndex.Serialized(e))
  }

  ghost predicate Consistent(hash: Blob -> Cid, world: iset<Blob>, root: Option<Cid>, entries: map<nat, Cid>,
                             cached: map<(Cid, nat), Blob>)
  {
    && (if root.Some? then Names(hash, world, root.value, entries) else entries == map[] && cached == map[])
    && Honest(hash, world, cached)
  }

  /** A root names at most one index. */
  lemma NamesOne(hash: Blob -> Cid, world: iset<Blob>, root: Cid, e: map<nat, Cid>, e': map<nat, Cid>)
    requires CollisionFree(hash, world) && Names(hash, world, root, e) && Names(hash, world, root, e')
    ensures e == e'
  {
    SameBlob(hash, world, PageIndex.Serialized(e), PageIndex.Serialized(e'));
    PageIndex.SerializedInjective(e, e');
  }

  /** The bytes are the page of whatever index `root` names. */
  ghost predicate Fits(hash: Blob -> Cid, world: iset<Blob>, root: Cid, page: nat, bytes: Blob)
  {
    forall e :: Names(hash, world, root, e) ==> page in e && e[page] == hash(bytes)
  }

  /** Caching a page under a root keeps the cache honest exactly if the bytes are that root's page. */
  lemma HonestPutIff(hash: Blob -> Cid, world: iset<Blob>, cache: Lru<(Cid, nat), Blob>, root: Cid, page: nat,
                     bytes: Blob)
    requires cache.Valid() && Honest(hash, world, cache.values)
    ensures Honest(hash, world, cache.Put((root, page), bytes).values) <==> Fits(hash, world, root, page, bytes)
  {
    var key, after := (root, page), cache.Put((root, page), bytes).values;
    if Honest(hash, world, after) {
      forall e | Names(hash, world, root, e) ensures page in e && e[page] == hash(bytes) {
        assert Names(hash, world, key.0, e) && after[key] == bytes;
      }
    }
    if Fits(hash, world, root, page, bytes) {
      forall q, e | q in after && Names(hash, world, q.0, e) ensures q.1 in e && e[q.1] == hash(after[q]) {
        if q != key { assert after[q] == cache.values[q]; }
      }
    }
  }

  /** A read keeps the cache honest exactly if it caches nothing or caches the page of the root it reads under. */
  lemma HonestAfterRead(hash: Blob -> Cid, world: iset<Blob>, cache: Lru<(Cid, nat), Blob>, key: (Cid, nat),
                        r: Answer<Blob>)
    requires cache.Valid() && Honest(hash, world, cache.values)
    ensures Honest(hash, world, CacheAfter(cache, key, r).values) <==>
            key in cache.values || r.Bad? || Fits(hash, world, key.0, key.1, r.value)
  {
    if key !in cache.values && r.Good? { HonestPutIff(hash, world, cache, key.0, key.1, r.value); }
  }

  lemma NamedFits(hash: Blob -> Cid, world: iset<Blob>, root: Cid, e: map<nat, Cid>, page: nat, bytes: Blob)
    requires CollisionFree(hash, world) && Names(hash, world, root, e) && page in e
    ensures Fits(hash, world, root, page, bytes) <==> e[page] == hash(bytes)
  {
    forall e' | Names(hash, world, root, e') ensures e' == e { NamesOne(hash, world, root, e, e'); }
  }

  class CidVfs {
    const store: ContentAddressedStore
    const pageSize: nat
    ghost const world: iset<Blob>
    var entries: map<nat, Cid>
    var cache: Lru<(Cid, nat), Blob>
    var dirty: map<nat, Blob>
    var root: Option<Cid>

    ghost predicate Valid()
      reads this, store
    {
      && store.Valid() && cache.Valid() && GoodHash(store.hash, world)
      && PageIndex.IsIndex(entries)
      && (forall p :: p in dirty ==> p < PageIndex.PAGES)
    }

    /** The key under which the cache is read. */
    function RootKey(): Cid
      reads this
    {
      RootKeyOf(root)
    }

    /** Cached pages belong to the index their root names. */
    ghost predicate HonestCache()
      reads this
    {
      Honest(store.hash, world, cache.values)
    }

    /** Moreover the live index is the one the root names. */
    ghost predicate Settled()
      reads this
    {
      Consistent(store.hash, world, root, entries, cache.values)
    }

    /** Every page of the index is in the store, unharmed, and nothing stored or cached collides. */
    ghost predicate Complete()
      reads this, store
    {
      && store.Intact() && Resolves(store.disk, entries) && Within(store.disk, world)
      && forall key :: key in cache.values ==> cache.values[key] in world
    }

    /** The database as its readers should see it. */
    ghost function Pages(): map<nat, Blob>
      requires Complete()
      reads this, store
    {
      PagesOf(store.disk, entries)
    }

    constructor (store: ContentAddressedStore, pageSize: nat, capacity: nat, ghost world: iset<Blob>)
      requires store.Valid() && GoodHash(store.hash, world)
      ensures this.store == store && this.pageSize == pageSize && this.world == world
      ensures Valid() && Settled() && (store.Intact() && Within(store.disk, world) ==> Complete())
      ensures entries == map[] && dirty == map[] && root == None
    {
      this.store := store;
      this.pageSize := pageSize;
      this.world := world;
      entries := map[];
      cache := Empty(if capacity == 0 then 1 else capacity);
      dirty := map[];
      root := None;
    }

    /** The page through the index and the store, past the cache. */
    method Fetch(page: nat) returns (r: Answer<Blob>)
      requires Valid()
      modifies store
      ensures Valid() && store.disk == old(store.disk)
      ensures old(Complete()) ==> Complete() && r == PageReply(Pages(), page)
      ensures page !in entries <==> r == Bad(PageNotFound(page))
      ensures r.Good? ==> store.hash(r.value) == entries[page]
    {
      if page !in entries {
        return Bad(PageNotFound(page));
      }
      var cid := entries[page];
      var got := store.Get(cid);
      if got.Err? || got.value.None? {
        return Bad(StoreError);
      }
      var bytes := got.value.value;
      if store.hash(bytes) != cid {
        assert false;
      }
      r := Good(bytes);
    }

    lemma CachedPage(page: nat)
      requires Valid() && Settled() && (RootKey(), page) in cache.values
      ensures page in entries && store.hash(cache.values[(RootKey(), page)]) == entries[page]
      ensures Complete() ==> cache.values[(RootKey(), page)] == Pages()[page]
    {
      assert Names(store.hash, world, RootKey(), entries);
      if Complete() { SameBlob(store.hash, world, cache.values[(RootKey(), page)], Pages()[page]); }
    }

    /**
     From a settled state a read returns the committed page, cached or not; if the
     store lost or damaged objects it may fail, but it returns no other bytes.  In any
     state it keeps the cache honest exactly if it caches nothing, or caches the page
     of the root.
     */
    method ReadPage(page: nat) returns (r: Answer<Blob>)
      requires Valid()
      modifies this`cache, store
      ensures Valid() && store.disk == old(store.disk)
      ensures old(Settled()) ==> Settled()
      ensures old(HonestCache()) ==> (HonestCache() <==>
        (RootKey(), page) in old(cache).values || r.Bad? || Fits(store.hash, world, RootKey(), page, r.value))
      ensures old(Complete()) ==> Complete()
      ensures old(Settled()) && r.Good? ==> page in entries && store.hash(r.value) == entries[page]
      ensures old(Settled()) && old(Complete()) ==> r == PageReply(Pages(), page)
      ensures (RootKey(), page) in old(cache).values ==> r == Good(old(cache).values[(RootKey(), page)])
      ensures old(Complete()) && (RootKey(), page) !in old(cache).values ==> r == PageReply(Pages(), page)
      ensures cache == CacheAfter(old(cache), (RootKey(), page), r)
    {
      ghost var key := (RootKey(), page);
      if Settled() && key in cache.values { CachedPage(page); }
      r := ReadThrough(page);
      if old(HonestCache()) { HonestAfterRead(store.hash, world, old(cache), key, r); }
      if old(Settled()) && r.Good? { NamedFits(store.hash, world, RootKey(), entries, page, r.value); }
    }

    /** The cache, then the index and the store. */
    method ReadThrough(page: nat) returns (r: Answer<Blob>)
      requires Valid()
      modifies this`cache, store
      ensures Valid() && store.disk == old(store.disk)
      ensures old(Complete()) ==> Complete()
      ensures (RootKey(), page) in old(cache).values ==> r == Good(old(cache).values[(RootKey(), page)])
      ensures (RootKey(), page) !in old(cache).values ==>
        && (old(Complete()) ==> r == PageReply(Pages(), page))
        && (page !in entries <==> r == Bad(PageNotFound(page)))
        && (r.Good? ==> store.hash(r.value) == entries[page])
      ensures cache == CacheAfter(old(cache), (RootKey(), page), r)
    {
      var key := (RootKey(), page);
      if key in cache.values {
        r := Good(cache.values[key]);
        cache := cache.Touch(key);
        return;
      }
      r := Fetch(page);
      if r.Good? {
        cache := cache.Put(key, r.value);
      }
    }

    /** Buffered only: no read sees it before the next commit. */
    method WritePage(page: nat, data: Blob) returns (r: Answer<()>)
      requires Valid() && page < PageIndex.PAGES
      modifies this`dirty
      ensures Valid() && (old(Settled()) ==> Settled()) && (old(Complete()) ==> Complete() && Pages() == old(Pages()))
      ensures |data| == pageSize ==> r == Good(()) && dirty == old(dirty)[page := data]
      ensures |data| != pageSize ==> r == Bad(InvalidPageSize(|data|)) && dirty == old(dirty)
    {
      if |data| != pageSize {
        return Bad(InvalidPageSize(|data|));
      }
      dirty := dirty[page := data];
      r := Good(());
    }

    method StorePage(page: nat, data: Blob, write: Write, collateral: set<Cid>) returns (ok: bool)
      requires Valid() && page < PageIndex.PAGES
      modifies this`entries, store
      ensures Valid() && Grown(old(store.disk), store.disk)
      ensures write == Written ==> ok
      ensures forall c :: c in store.disk ==> c in old(store.disk) || c == store.hash(data)
      ensures entries == if ok then old(entries)[page := store.hash(data)] else old(entries)
      ensures old(store.Intact()) ==> store.Intact()
      ensures old(store.Intact()) && Within(old(store.disk), world) && data in world ==>
        Within(store.disk, world) && (ok ==> Holds(store.hash, store.disk, data))
    {
      var put, _ := store.Put(data, write, collateral);
      if put.Ok? {
        if store.Intact() && Within(old(store.disk), world) && data in world {
          SameBlob(store.hash, world, store.disk[put.value], data);
        }
        entries := entries[page := put.value];
      }
      ok := put.Ok?;
    }

    /** Stores the pages of a batch in some order and enters them, up to the first write that fails. */
    method StorePages(batch: map<nat, Blob>, writes: nat -> Write, collateral: nat -> set<Cid>)
      returns (ok: bool, ghost done: set<nat>)
      requires Valid() && forall p :: p in batch ==> p < PageIndex.PAGES
      modifies this`entries, store
      ensures Valid() && Grown(old(store.disk), store.disk)
      ensures done <= batch.Keys && entries == Entered(store.hash, old(entries), batch, done)
      ensures ok ==> done == batch.Keys
      ensures (forall i :: writes(i) == Written) ==> ok
      ensures AddsOnly(store.hash, old(store.disk), store.disk, batch)
      ensures old(store.Intact()) ==> store.Intact()
      ensures old(store.Intact()) && Within(old(store.disk), world) && AllIn(batch, world) ==>
        Within(store.disk, world) && HoldsAll(store.hash, store.disk, batch, done)
    {
      done := {};
      var n, rest := 1, batch.Keys;
      while rest != {}
        invariant Valid() && rest == batch.Keys - done && done <= batch.Keys
        invariant AddsOnly(store.hash, old(store.disk), store.disk, batch)
        invariant entries == Entered(store.hash, old(entries), batch, done)
        invariant Grown(old(store.disk), store.disk)
        invariant old(store.Intact()) ==> store.Intact()
        invariant old(store.Intact()) && Within(old(store.disk), world) && AllIn(batch, world) ==>
          Within(store.disk, world) && HoldsAll(store.hash, store.disk, batch, done)
      {
        var page :| page in rest;
        ok := StorePage(page, batch[page], writes(n), collateral(n));
        n := n + 1;
        if !ok {
          return;
        }
        EnteredOne(store.hash, old(entries), batch, done, page);
        done := done + {page};
        rest := rest - {page};
      }
      ok := true;
    }

    /**
     A successful commit publishes the buffered pages under a root that names the
     new index; whatever happened before, the state is then settled exactly if the
     cache is honest.  A failed one drops the buffer, keeps the root and leaves in the
     index the pages stored before the failure: the live index is still the one
     the root names exactly when every page stored was already there.
     */
    method Commit(writes: nat -> Write, indexWrite: Write, collateral: nat -> set<Cid>)
      returns (r: Answer<Cid>, ghost done: set<nat>)
      requires Valid()
      modifies this`entries, this`dirty, this`root, store
      ensures Valid() && dirty == map[] && Grown(old(store.disk), store.disk)
      ensures done <= old(dirty).Keys && entries == Entered(store.hash, old(entries), old(dirty), done)
      ensures old(dirty) == map[] ==>
        root == old(root) && r == if root.Some? then Good(root.value) else Bad(NoRootCid)
      ensures old(dirty) != map[] && (forall i :: writes(i) == Written) && indexWrite == Written ==> r.Good?
      ensures old(dirty) != map[] ==>
        IndexFails(store.hash, old(store.disk), old(entries), old(dirty), writes, indexWrite) ==>
        r.Bad? && done == old(dirty).Keys
      ensures old(dirty) != map[] && r.Good? ==>
        done == old(dirty).Keys && root == Some(r.value) && r.value == store.hash(PageIndex.Serialized(entries))
      ensures r.Bad? ==> root == old(root) && r.error == if old(dirty) == map[] then NoRootCid else StoreError
      ensures StoresOnly(store.hash, old(store.disk), store.disk, old(dirty), entries)
      ensures old(dirty) != map[] && Foreseen(store.hash, world, old(entries), old(dirty)) && r.Good? ==>
        (Settled() <==> old(HonestCache()))
      ensures old(Settled()) && Foreseen(store.hash, world, old(entries), old(dirty)) && r.Good? ==> Settled()
      ensures old(Settled()) && r.Bad? ==> (Settled() <==> AlreadyThere(store.hash, old(entries), old(dirty), done))
      ensures old(Complete()) && Foreseen(store.hash, world, old(entries), old(dirty)) ==>
        Complete() && Pages() == old(Pages()) + Picked(old(dirty), done)
    {
      var batch := dirty;
      dirty := map[];
      if batch == map[] {
        done := {};
        assert Entered(store.hash, entries, batch, {}) == entries && Picked(batch, {}) == map[];
        r := if root.Some? then Good(root.value) else Bad(NoRootCid);
        return;
      }
      r, done := CommitBatch(batch, writes, indexWrite, collateral);
      if old(Settled()) && r.Bad? {
        StillConsistentIff(store.hash, world, root, old(entries), batch, done, cache.values);
      }
    }

    method CommitBatch(batch: map<nat, Blob>, writes: nat -> Write, indexWrite: Write, collateral: nat -> set<Cid>)
      returns (r: Answer<Cid>, ghost done: set<nat>)
      requires Valid() && batch != map[] && forall p :: p in batch ==> p < PageIndex.PAGES
      modifies this`entries, this`root, store
      ensures Valid() && Grown(old(store.disk), store.disk)
      ensures done <= batch.Keys && entries == Entered(store.hash, old(entries), batch, done)
      ensures (forall i :: writes(i) == Written) && indexWrite == Written ==> r.Good?
      ensures IndexFails(store.hash, old(store.disk), old(entries), batch, writes, indexWrite) ==>
        r.Bad? && done == batch.Keys
      ensures r.Good? ==>
        done == batch.Keys && root == Some(r.value) && r.value == store.hash(PageIndex.Serialized(entries))
      ensures r.Bad? ==> root == old(root) && r.error == StoreError
      ensures StoresOnly(store.hash, old(store.disk), store.disk, batch, entries)
      ensures old(Complete()) && Foreseen(store.hash, world, old(entries), batch) ==>
        Complete() && Pages() == old(Pages()) + Picked(batch, done)
    {
      var ok;
      ok, done := StorePages(batch, writes, collateral);
      if old(Complete()) && AllIn(batch, world) {
        PagesAfter(store.hash, old(store.disk), store.disk, old(entries), batch, done);
      }
      if !ok {
        r := Bad(StoreError);
        return;
      }
      ghost var disk := store.disk;
      r := Publish(indexWrite, collateral(0));
      if old(Complete()) && AllIn(batch, world) {
        PagesGrown(disk, store.disk, entries);
      }
    }

    method Publish(write: Write, collateral: set<Cid>) returns (r: Answer<Cid>)
      requires Valid()
      modifies this`root, store
      ensures Valid() && Grown(old(store.disk), store.disk)
      ensures r.Good? <==> write == Written || store.hash(PageIndex.Serialized(entries)) in old(store.disk)
      ensures r == if r.Good? then Good(store.hash(PageIndex.Serialized(entries))) else Bad(StoreError)
      ensures root == if r.Good? then Some(r.value) else old(root)
      ensures old(store.Intact()) ==> store.Intact()
      ensures Within(old(store.disk), world) && PageIndex.Serialized(entries) in world ==> Within(store.disk, world)
      ensures forall c :: c in store.disk ==> c in old(store.disk) || c == store.hash(PageIndex.Serialized(entries))
    {
      var serialised := PageIndex.Serialize(entries);
      var put, _ := store.Put(serialised, write, collateral);
      if put.Err? {
        return Bad(StoreError);
      }
      root := Some(put.value);
      r := Good(put.value);
    }

    method TakeSnapshot() returns (r: Answer<Snapshot>)
      requires Valid()
      ensures r == if root.Some? then Good(Snapshot(root.value, entries)) else Bad(NoRootCid)
      ensures Settled() && r.Good? ==> Names(store.hash, world, r.value.rootCid, r.value.entries)
    {
      if root.None? {
        return Bad(NoRootCid);
      }
      r := Good(Snapshot(root.value, entries));
    }
  }

  /** The page size is one of the powers of two from 512 to 65536. */
  method NewVfs(store: ContentAddressedStore, pageSize: nat, capacity: nat, ghost world: iset<Blob>)
    returns (r: Answer<CidVfs>)
    requires store.Valid() && GoodHash(store.hash, world)
    ensures r.Good? <==> pageSize in {512, 1024, 2048, 4096, 8192, 16384, 32768, 65536}
    ensures r.Bad? ==> r.error == InvalidPageSize(pageSize)
    ensures r.Good? ==> fresh(r.value) && r.value.Valid() && r.value.Settled() && r.value.root == None
    ensures r.Good? ==> r.value.store == store && r.value.pageSize == pageSize && r.value.world == world
    ensures r.Good? && store.Intact() && Within(store.disk, world) ==> r.value.Complete() && r.value.Pages() == map[]
    ensures r.Good? ==> r.value.dirty == map[]
  {
    if pageSize <= 65536 { PowersOfTwo(pageSize); }
    if !(512 <= pageSize <= 65536) || !PowerOfTwo(pageSize) {
      return Bad(InvalidPageSize(pageSize));
    }
    var vfs := new CidVfs(store, pageSize, capacity, world);
    r := Good(vfs);
  }

  /** Storing the pages in `done` changes nothing the index says. */
  ghost predicate AlreadyThere(hash: Blob -> Cid, entries: map<nat, Cid>, batch: map<nat, Blob>, done: set<nat>)
    requires done <= batch.Keys
  {
    forall p :: p in done ==> p in entries && entries[p] == hash(batch[p])
  }

  lemma StillConsistentIff(hash: Blob -> Cid, world: iset<Blob>, root: Option<Cid>, entries: map<nat, Cid>,
                           batch: map<nat, Blob>,
                           done: set<nat>, cached: map<(Cid, nat), Blob>)
    requires GoodHash(hash, world) && done <= batch.Keys && (forall p :: p in batch ==> p < PageIndex.PAGES)
    requires PageIndex.IsIndex(entries) && Consistent(hash, world, root, entries, cached)
    ensures Consistent(hash, world, root, Entered(hash, entries, batch, done), cached) <==>
            AlreadyThere(hash, entries, batch, done)
  {
    EnteredSameIff(hash, entries, batch, done);
    IndexChangedIff(hash, world, root, entries, Entered(hash, entries, batch, done), cached);
  }

  lemma IndexChangedIff(hash: Blob -> Cid, world: iset<Blob>, root: Option<Cid>, e: map<nat, Cid>, e': map<nat, Cid>,
                        cached: map<(Cid, nat), Blob>)
    requires CollisionFree(hash, world) && PageIndex.IsIndex(e) && PageIndex.IsIndex(e') &&
      Consistent(hash, world, root, e, cached)
    ensures Consistent(hash, world, root, e', cached) <==> e == e'
  {
    if Consistent(hash, world, root, e', cached) && root.Some? { NamesOne(hash, world, root.value, e, e'); }
  }

  lemma EnteredSameIff(hash: Blob -> Cid, entries: map<nat, Cid>, batch: map<nat, Blob>, done: set<nat>)
    requires done <= batch.Keys
    ensures entries == Entered(hash, entries, batch, done) <==> AlreadyThere(hash, entries, batch, done)
  {
  }

  /** Roots differ exactly when the indexes do. */
  lemma RootChangedIff(hash: Blob -> Cid, world: iset<Blob>, e: map<nat, Cid>, e': map<nat, Cid>)
    requires CollisionFree(hash, world) && PageIndex.IsIndex(e) && PageIndex.IsIndex(e')
    requires PageIndex.Serialized(e) in world && PageIndex.Serialized(e') in world
    ensures hash(PageIndex.Serialized(e)) == hash(PageIndex.Serialized(e')) <==> e == e'
  {
    var root := hash(PageIndex.Serialized(e));
    assert Names(hash, world, root, e);
    if root == hash(PageIndex.Serialized(e')) { NamesOne(hash, world, root, e, e'); }
  }

  /** Entering stored pages in the index adds exactly their bytes to what is read. */
  lemma PagesAfter(hash: Blob -> Cid, before: map<Cid, Blob>, after: map<Cid, Blob>, entries: map<nat, Cid>,
                   batch: map<nat, Blob>, done: set<nat>)
    requires done <= batch.Keys && Grown(before, after) && HoldsAll(hash, after, batch, done)
    requires Resolves(before, entries)
    ensures Resolves(after, Entered(hash, entries, batch, done))
    ensures PagesOf(after, Entered(hash, entries, batch, done)) == PagesOf(before, entries) + Picked(batch, done)
  {
  }

  ghost predicate Resolves(disk: map<Cid, Blob>, entries: map<nat, Cid>)
  {
    forall p :: p in entries ==> entries[p] in disk
  }

  function PagesOf(disk: map<Cid, Blob>, entries: map<nat, Cid>): map<nat, Blob>
    requires Resolves(disk, entries)
  {
    map p | p in entries :: disk[entries[p]]
  }

  function Picked(batch: map<nat, Blob>, done: set<nat>): map<nat, Blob>
    requires done <= batch.Keys
  {
    map p | p in done :: batch[p]
  }

  /** Whatever is new on the disk is a page of the batch. */
  ghost predicate AddsOnly(hash: Blob -> Cid, before: map<Cid, Blob>, after: map<Cid, Blob>, batch: map<nat, Blob>)
  {
    forall c :: c in after ==> c in before || PageHash(hash, batch, c)
  }

  /** Whatever is new on the disk is a page of the batch or the index. */
  ghost predicate StoresOnly(hash: Blob -> Cid, before: map<Cid, Blob>, after: map<Cid, Blob>, batch: map<nat, Blob>,
                             entries: map<nat, Cid>)
  {
    forall c :: c in after ==> c in before || PageHash(hash, batch, c) || c == hash(PageIndex.Serialized(entries))
  }

  ghost predicate PageHash(hash: Blob -> Cid, batch: map<nat, Blob>, c: Cid)
  {
    exists p :: p in batch && hash(batch[p]) == c
  }

  /** Every page of the batch can be written; the new index, not stored before, cannot. */
  ghost predicate IndexFails(hash: Blob -> Cid, disk: map<Cid, Blob>, entries: map<nat, Cid>, batch: map<nat, Blob>,
                             writes: nat -> Write, indexWrite: Write)
  {
    && (forall i :: writes(i) == Written) && indexWrite != Written
    && var index := hash(PageIndex.Serialized(Entered(hash, entries, batch, batch.Keys)));
       index !in disk && !PageHash(hash, batch, index)
  }

  /** Nothing stored is lost or changed. */
  ghost predicate Grown(before: map<Cid, Blob>, after: map<Cid, Blob>)
  {
    forall c :: c in before ==> c in after && after[c] == before[c]
  }

  lemma PagesGrown(before: map<Cid, Blob>, after: map<Cid, Blob>, entries: map<nat, Cid>)
    requires Grown(before, after) && Resolves(before, entries)
    ensures Resolves(after, entries) && PagesOf(after, entries) == PagesOf(before, entries)
  {
  }

  ghost predicate Holds(hash: Blob -> Cid, disk: map<Cid, Blob>, data: Blob)
  {
    hash(data) in disk && disk[hash(data)] == data
  }

  ghost predicate HoldsAll(hash: Blob -> Cid, disk: map<Cid, Blob>, batch: map<nat, Blob>, done: set<nat>)
    requires done <= batch.Keys
  {
    forall p :: p in done ==> Holds(hash, disk, batch[p])
  }

  lemma EnteredOne(hash: Blob -> Cid, entries: map<nat, Cid>, batch: map<nat, Blob>, done: set<nat>, page: nat)
    requires done <= batch.Keys && page in batch
    ensures Entered(hash, entries, batch, done + {page}) ==
            Entered(hash, entries, batch, done)[page := hash(batch[page])]
  {
  }
}
