/**
 What the replies of a whole run mean: which reads give the page of the current
 root, exactly, when commits may fail; and that without failures every reply is
 that of a plain database.
 */
module VfsHistory {
  import opened Wrappers
  import ObjectStore
  import opened Vfs
  import opened VfsRuns

  type Blob = ObjectStore.Blob
  type Cid = ObjectStore.Cid

  /** A run with what is known of its hash. */
  datatype History = History(hash: Blob -> Cid, pageSize: nat, log: seq<Moment>, ops: seq<Operation>,
                             replies: seq<Reply>) {

    ghost predicate Valid(world: iset<Blob>)
    {
      IsLog(hash, pageSize, log, ops, replies) && GoodHash(hash, world) && Foreseeable(hash, world, ops)
    }

    ghost predicate IsRead(i: nat, page: nat)
      requires |log| == |ops| + 1
    {
      i < |ops| && ops[i] == Read(page)
    }

    ghost function Key(i: nat, page: nat): (Cid, nat)
      requires i < |log|
    {
      KeyAt(hash, log[i], page)
    }

    /** Operation i read the page under this key past the cache and stored it there, where it still is at moment j. */
    ghost predicate CachedSince(i: nat, j: nat, key: (Cid, nat))
      requires |log| == |ops| + 1 && i <= j < |log|
    {
      && IsRead(i, key.1) && Key(i, key.1) == key && key !in log[i].cached && key.1 in log[i].pages
      && forall k :: i < k <= j ==> key in log[k].cached
    }
  }

  /** The pages the root names. */
  function NamedPages(m: Moment): map<nat, Blob>
  {
    if m.named.Some? then m.named.value else map[]
  }

  // ----- where a cached page comes from -----

  lemma StepOf(h: History, world: iset<Blob>, i: nat)
    requires h.Valid(world) && i < |h.ops|
    ensures Moves(h.hash, h.pageSize, h.log[i], h.ops[i], h.replies[i], h.log[i + 1])
  {
    assert MovesAt(h.hash, h.pageSize, h.log, h.ops, h.replies, i);
  }

  /** An entry stays as it is for as long as it is there. */
  lemma EntryStays(h: History, world: iset<Blob>, i: nat, key: (Cid, nat))
    requires h.Valid(world) && i < |h.ops| && key in h.log[i + 1].cached
    ensures key in h.log[i].cached ==> h.log[i + 1].cached[key] == h.log[i].cached[key]
    ensures key !in h.log[i].cached ==>
      h.CachedSince(i, i + 1, key) && h.log[i + 1].cached[key] == h.log[i].pages[key.1]
  {
    StepOf(h, world, i);
  }

  lemma {:induction false} CachedValue(h: History, world: iset<Blob>, i: nat, j: nat, key: (Cid, nat))
    requires h.Valid(world) && i < j < |h.log| && h.CachedSince(i, j, key)
    ensures h.log[j].cached[key] == h.log[i].pages[key.1]
    decreases j
  {
    EntryStays(h, world, j - 1, key);
    if i + 1 < j { CachedValue(h, world, i, j - 1, key); }
  }

  lemma {:induction false} Provenance(h: History, world: iset<Blob>, j: nat, key: (Cid, nat)) returns (i: nat)
    requires h.Valid(world) && j < |h.log| && key in h.log[j].cached
    ensures i < j && h.CachedSince(i, j, key)
    decreases j
  {
    EntryStays(h, world, j - 1, key);
    if key in h.log[j - 1].cached {
      i := Provenance(h, world, j - 1, key);
    } else {
      i := j - 1;
    }
  }

  // ----- what a failed commit leaves behind -----

  function At(pages: map<nat, Blob>, page: nat): Option<Blob>
  {
    if page in pages then Some(pages[page]) else None
  }

  /** Operation k was a commit that failed after storing these bytes for the page. */
  ghost predicate FailedWith(h: History, k: nat, page: nat, bytes: Blob)
    requires |h.log| == |h.ops| + 1 && |h.replies| == |h.ops|
  {
    && k < |h.ops| && h.ops[k].Commit? && h.replies[k] == CommitDone(Bad(StoreError))
    && page in h.log[k].dirty && h.log[k].dirty[page] == bytes && At(h.log[k + 1].pages, page) == Some(bytes)
  }

  /** A live page that is not the root's was left by a commit that failed under this root. */
  lemma {:induction false} FailureBehind(h: History, world: iset<Blob>, i: nat, page: nat) returns (k: nat)
    requires h.Valid(world) && i < |h.log|
    requires At(h.log[i].pages, page) != At(NamedPages(h.log[i]), page)
    ensures k < i && page in h.log[i].pages && FailedWith(h, k, page, h.log[i].pages[page])
    ensures h.log[k].named == h.log[i].named
    decreases i
  {
    k := i - 1;
    var m, m' := h.log[k], h.log[i];
    StepOf(h, world, k);
    if At(m.pages, page) == At(m'.pages, page) && m.named == m'.named {
      k := FailureBehind(h, world, k, page);
    } else {
      FailedHere(h.hash, h.pageSize, m, h.ops[k], h.replies[k], m', page);
    }
  }

  lemma FailedHere(hash: Blob -> Cid, pageSize: nat, m: Moment, op: Operation, reply: Reply, m': Moment, page: nat)
    requires Moves(hash, pageSize, m, op, reply, m')
    requires At(m'.pages, page) != At(NamedPages(m'), page)
    requires At(m.pages, page) != At(m'.pages, page) || m.named != m'.named
    ensures op.Commit? && reply == CommitDone(Bad(StoreError)) && m'.named == m.named
    ensures page in m.dirty && At(m'.pages, page) == Some(m.dirty[page])
  {
    if op.Commit? {
      var done :| CommitMoves(hash, m, op, done, reply.root, m');
    }
  }

  // ----- exactly when a read gives the page of the root -----

  /**
   Operation k failed after storing these bytes; operation i, under the same root,
   read them past the cache; and they are what is read under this root at moment j,
   being just read or still cached.
   */
  ghost predicate Intrusion(h: History, k: nat, i: nat, j: nat, page: nat)
    requires |h.log| == |h.ops| + 1 && |h.replies| == |h.ops| && j < |h.ops|
  {
    && k < i <= j && page in h.log[i].pages && FailedWith(h, k, page, h.log[i].pages[page])
    && h.log[k].named == h.log[i].named && h.CachedSince(i, j, h.Key(j, page))
    && At(NamedPages(h.log[j]), page) != Some(h.log[i].pages[page])
  }

  lemma {:induction false} NamedStays(h: History, world: iset<Blob>, i: nat, j: nat)
    requires h.Valid(world) && i <= j < |h.log| && h.log[i].named.Some?
    ensures h.log[j].named.Some?
    decreases j
  {
    if i < j {
      NamedStays(h, world, i, j - 1);
      StepOf(h, world, j - 1);
    }
  }

  lemma {:induction false} LogWritten(h: History, world: iset<Blob>, i: nat)
    requires h.Valid(world) && i < |h.log|
    ensures MomentWritten(h.ops, h.log[i])
  {
    if i > 0 {
      LogWritten(h, world, i - 1);
      StepOf(h, world, i - 1);
      MovesWritten(h.hash, h.pageSize, h.ops, i - 1, h.log[i - 1], h.replies[i - 1], h.log[i]);
    }
  }

  /** Moments with the same cache key have the same root, or the earlier one has none. */
  lemma SameKey(h: History, world: iset<Blob>, i: nat, j: nat, page: nat)
    requires h.Valid(world) && i <= j < |h.log| && h.Key(i, page) == h.Key(j, page)
    ensures h.log[i].named.Some? ==> h.log[i].named == h.log[j].named
    ensures h.log[j].named.None? ==> h.log[i].named.None?
  {
    if h.log[i].named.Some? {
      NamedStays(h, world, i, j);
      LogWritten(h, world, i);
      LogWritten(h, world, j);
      WrittenIsHashed(h.hash, world, h.ops, h.log[i].named.value);
      WrittenIsHashed(h.hash, world, h.ops, h.log[j].named.value);
      RootsEqualIff(h.hash, world, h.log[i].named.value, h.log[j].named.value);
    }
  }

  /** What a read replies: the bytes of the read that cached them, or of its own, or that there are none. */
  lemma ReplyFrom(h: History, world: iset<Blob>, j: nat, page: nat) returns (i: nat)
    requires h.Valid(world) && h.IsRead(j, page)
    ensures h.replies[j].ReadDone? && i <= j
    ensures h.replies[j].read.Good? ==>
      h.CachedSince(i, j, h.Key(j, page)) && h.replies[j] == ReadDone(Good(h.log[i].pages[page]))
    ensures h.replies[j].read.Bad? ==>
      h.replies[j] == ReadDone(PageReply(h.log[j].pages, page)) && page !in h.log[j].pages
  {
    StepOf(h, world, j);
    var key := h.Key(j, page);
    i := j;
    if key in h.log[j].cached {
      i := Provenance(h, world, j, key);
      CachedValue(h, world, i, j, key);
    }
  }

  lemma ReplyOf(h: History, world: iset<Blob>, i: nat, j: nat, page: nat)
    requires h.Valid(world) && i <= j && h.IsRead(j, page) && h.CachedSince(i, j, h.Key(j, page))
    ensures h.replies[j] == ReadDone(Good(h.log[i].pages[page]))
  {
    StepOf(h, world, j);
    if i < j { CachedValue(h, world, i, j, h.Key(j, page)); }
  }

  lemma WrongReply(h: History, world: iset<Blob>, j: nat, page: nat) returns (k: nat, i: nat)
    requires h.Valid(world) && h.IsRead(j, page)
    requires h.replies[j] != ReadDone(PageReply(NamedPages(h.log[j]), page))
    ensures Intrusion(h, k, i, j, page)
  {
    i := ReplyFrom(h, world, j, page);
    if h.replies[j].read.Bad? {
      k := FailureBehind(h, world, j, page);
    } else {
      SameKey(h, world, i, j, page);
      k := FailureBehind(h, world, i, page);
    }
  }

  /**
   In every run, whatever commits fail: a read gives the page the current root names
   exactly if no commit failed after storing other bytes for that page which a read
   under the same root then took past the cache, just now or earlier and still cached.
   So after a failed commit and one such read, a successful commit that returns to
   that root is not enough.
   */
  lemma ReadRightIff(h: History, world: iset<Blob>, j: nat, page: nat)
    requires h.Valid(world) && h.IsRead(j, page)
    ensures h.replies[j] == ReadDone(PageReply(NamedPages(h.log[j]), page)) <==>
            !exists k, i :: Intrusion(h, k, i, j, page)
  {
    if h.replies[j] != ReadDone(PageReply(NamedPages(h.log[j]), page)) {
      var k, i := WrongReply(h, world, j, page);
    }
    forall k, i | Intrusion(h, k, i, j, page) ensures h.replies[j] != ReadDone(PageReply(NamedPages(h.log[j]), page)) {
      ReplyOf(h, world, i, j, page);
    }
  }

  // ----- without failures: the plain database -----

  datatype Database = Database(pages: map<nat, Blob>, dirty: map<nat, Blob>, committed: bool,
                               pinned: seq<map<nat, Blob>>)

  const EMPTY := Database(map[], map[], false, [])

  function After(db: Database, pageSize: nat, op: Operation): Database
  {
    match op
    case Write(page, data) => if |data| == pageSize then db.(dirty := db.dirty[page := data]) else db
    case Commit(_, _, _) =>
      db.(pages := db.pages + db.dirty, dirty := map[], committed := db.committed || db.dirty != map[])
    case Pin => if db.committed then db.(pinned := db.pinned + [db.pages]) else db
    case _ => db
  }

  ghost function Answered(hash: Blob -> Cid, pageSize: nat, db: Database, op: Operation): Reply
  {
    match op
    case Read(page) => ReadDone(PageReply(db.pages, page))
    case Write(_, data) => WriteDone(if |data| == pageSize then Good(()) else Bad(InvalidPageSize(|data|)))
    case Commit(_, _, _) =>
      CommitDone(if db.committed || db.dirty != map[] then Good(RootOf(hash, db.pages + db.dirty)) else Bad(NoRootCid))
    case Pin => PinDone(if db.committed then Good(RootOf(hash, db.pages)) else Bad(NoRootCid))
    case Look(s, page) =>
      LookDone(if s < |db.pinned| && page in db.pinned[s] then Some(db.pinned[s][page]) else None)
    case Foreign(_, _, _) => ForeignDone
  }

  /** The database after the first `n` operations. */
  function DatabaseAt(pageSize: nat, ops: seq<Operation>, n: nat): Database
    requires n <= |ops|
  {
    if n == 0 then EMPTY else After(DatabaseAt(pageSize, ops, n - 1), pageSize, ops[n - 1])
  }

  /** The root names the live pages, and these are the database's. */
  predicate Mirrors(m: Moment, db: Database)
  {
    && m.pages == db.pages && m.dirty == db.dirty && m.pinned == db.pinned
    && m.named == (if db.committed then Some(db.pages) else None) && (db.committed || db.pages == map[])
  }

  ghost predicate NoneFailed(h: History, n: nat)
    requires n <= |h.ops| == |h.replies|
  {
    forall i :: 0 <= i < n ==> h.replies[i] != CommitDone(Bad(StoreError))
  }

  lemma CommitMirrors(hash: Blob -> Cid, m: Moment, op: Operation, done: set<nat>, r: Answer<Cid>, m': Moment,
                      db: Database)
    requires op.Commit? && Mirrors(m, db) && CommitMoves(hash, m, op, done, r, m') && r != Bad(StoreError)
    ensures m.dirty == map[] ==> db.pages + db.dirty == db.pages && m' == m
    ensures m.dirty != map[] ==>
      r == Good(RootOf(hash, db.pages + db.dirty)) && m'.named == Some(m'.pages) && m'.pages == db.pages + db.dirty
  {
    assert done == m.dirty.Keys ==> Picked(m.dirty, done) == m.dirty;
  }

  lemma StepMirrors(h: History, world: iset<Blob>, i: nat, db: Database)
    requires h.Valid(world) && i < |h.ops| && Mirrors(h.log[i], db)
    requires h.replies[i] != CommitDone(Bad(StoreError))
    ensures Mirrors(h.log[i + 1], After(db, h.pageSize, h.ops[i]))
    ensures !h.ops[i].Read? ==> h.replies[i] == Answered(h.hash, h.pageSize, db, h.ops[i])
  {
    StepOf(h, world, i);
    var m, op := h.log[i], h.ops[i];
    if op.Commit? {
      var done :| CommitMoves(h.hash, m, op, done, h.replies[i].root, h.log[i + 1]);
      CommitMirrors(h.hash, m, op, done, h.replies[i].root, h.log[i + 1], db);
    }
  }

  lemma {:induction false} RunMirrors(h: History, world: iset<Blob>, n: nat)
    requires h.Valid(world) && n <= |h.ops| && NoneFailed(h, n)
    ensures Mirrors(h.log[n], DatabaseAt(h.pageSize, h.ops, n))
  {
    if n > 0 {
      RunMirrors(h, world, n - 1);
      StepMirrors(h, world, n - 1, DatabaseAt(h.pageSize, h.ops, n - 1));
    }
  }

  /**
   As long as no commit has failed, each reply is that of a plain database: reads give
   the pages last committed, also when a commit returns to an earlier root, and a
   snapshot gives the pages of the moment it was taken.
   */
  lemma RepliesArePlain(h: History, world: iset<Blob>, i: nat)
    requires h.Valid(world) && i < |h.ops| && NoneFailed(h, i + 1)
    ensures h.replies[i] == Answered(h.hash, h.pageSize, DatabaseAt(h.pageSize, h.ops, i), h.ops[i])
  {
    RunMirrors(h, world, i);
    StepMirrors(h, world, i, DatabaseAt(h.pageSize, h.ops, i));
    if h.ops[i].Read? {
      ReadRightIff(h, world, i, h.ops[i].page);
    }
  }

  /** Writes that succeed make commits that succeed. */
  lemma WrittenNeverFails(h: History, world: iset<Blob>, i: nat)
    requires h.Valid(world) && i < |h.ops|
    requires h.ops[i].Commit? ==>
      (forall n :: h.ops[i].writes(n) == ObjectStore.Written) && h.ops[i].indexWrite == ObjectStore.Written
    ensures h.replies[i] != CommitDone(Bad(StoreError))
  {
    StepOf(h, world, i);
  }
}
