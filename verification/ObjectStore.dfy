/**
 The content-addressed store: a disk of files named by content identifier, a
 membership filter in front of it and a bounded cache in front of both.

 The hash is any function; what the file system does to a write is a parameter.
 */
module ObjectStore {
  import opened Bytes
  import opened Wrappers
  import opened Lru

  type Cid = seq<byte>
  type Blob = seq<byte>

  datatype Error = StoreFull | IoError | IntegrityViolation(cid: Cid, actual: Cid)

  datatype Result<T> = Ok(value: T) | Err(error: Error)

  /** What the file system makes of a write. */
  datatype Write = Written | NoSpace | Failed

  datatype Metrics = Metrics(puts: nat, gets: nat, cacheHits: nat, cacheMisses: nat, bloomFalsePositives: nat,
                             integrityViolations: nat)

  // ----- the store as a plain map -----

  /** Content is kept under its own hash, once. */
  function AfterPut(hash: Blob -> Cid, disk: map<Cid, Blob>, data: Blob, write: Write): map<Cid, Blob>
  {
    if hash(data) in disk || write != Written then disk else disk[hash(data) := data]
  }

  function PutReply(hash: Blob -> Cid, disk: map<Cid, Blob>, data: Blob, write: Write): Result<Cid>
  {
    if hash(data) in disk || write == Written then Ok(hash(data)) else
    if write == NoSpace then Err(StoreFull) else Err(IoError)
  }

  /** A put fails exactly if the content is new and its file cannot be written, and then changes nothing.  Otherwise
      the content's name is answered and held, no file that was there changes, and no other is added. */
  lemma PutKeeps(hash: Blob -> Cid, disk: map<Cid, Blob>, data: Blob, write: Write)
    ensures var r, after := PutReply(hash, disk, data, write), AfterPut(hash, disk, data, write);
            && (r.Err? <==> hash(data) !in disk && write != Written)
            && (r.Err? ==> after == disk && r.error == if write == NoSpace then StoreFull else IoError)
            && (r.Ok? ==> r.value == hash(data) && after.Keys == disk.Keys + {hash(data)})
            && (forall c :: c in disk ==> c in after && after[c] == disk[c])
            && (hash(data) !in disk && r.Ok? ==> after[hash(data)] == data)
  {
  }

  function Lookup(disk: map<Cid, Blob>, cid: Cid): Option<Blob>
  {
    if cid in disk then Some(disk[cid]) else None
  }

  function Tick(b: bool): nat
  {
    if b then 1 else 0
  }

  /** The filter answers yes for everything inserted and for whatever else the insertions happen to cover. */
  class ContentAddressedStore {
    const hash: Blob -> Cid
    var disk: map<Cid, Blob>
    var positives: set<Cid>
    var cache: Lru<Cid, Blob>
    var metrics: Metrics

    /** Kept by every operation, even when files change behind the store's back. */
    ghost predicate Valid()
      reads this
    {
      && cache.Valid()
      && (forall c :: c in cache.values ==> hash(cache.values[c]) == c)
      && disk.Keys <= positives
      && metrics.gets == metrics.cacheHits + metrics.cacheMisses
      && metrics.bloomFalsePositives + metrics.integrityViolations <= metrics.cacheMisses
    }

    /** Files hold what their names promise, and the cache agrees with them. */
    ghost predicate Intact()
      reads this
    {
      && (forall c :: c in disk ==> hash(disk[c]) == c)
      && (forall c :: c in cache.values ==> c in disk && disk[c] == cache.values[c])
    }

    /** A store opened over existing files, whose names have been entered in the filter. */
    constructor (hash: Blob -> Cid, capacity: nat, disk: map<Cid, Blob>, positives: set<Cid>)
      requires capacity > 0 && disk.Keys <= positives
      ensures this.hash == hash && this.disk == disk && this.positives == positives
      ensures Valid() && cache.values == map[] && cache.capacity == capacity
      ensures metrics == Metrics(0, 0, 0, 0, 0, 0)
    {
      this.hash := hash;
      this.disk := disk;
      this.positives := positives;
      cache := Empty(capacity);
      metrics := Metrics(0, 0, 0, 0, 0, 0);
    }

    /** `written` tells whether a file was written, which is when the event is published. */
    method Put(data: Blob, write: Write, collateral: set<Cid>) returns (r: Result<Cid>, written: bool)
      requires Valid()
      modifies this
      ensures Valid() && (old(Intact()) ==> Intact())
      ensures r == PutReply(hash, old(disk), data, write)
      ensures disk == AfterPut(hash, old(disk), data, write)
      ensures written <==> disk != old(disk)
      ensures positives == old(positives) + if written then {hash(data)} + collateral else {}
      ensures cache == if written then old(cache).Put(hash(data), data) else old(cache)
      ensures metrics == old(metrics).(puts := old(metrics).puts + 1)
    {
      var cid := hash(data);
      metrics := metrics.(puts := metrics.puts + 1);
      if cid in positives && cid in disk {
        return Ok(cid), false;
      }
      match write {
        case NoSpace => return Err(StoreFull), false;
        case Failed => return Err(IoError), false;
        case Written =>
          disk := disk[cid := data];
          positives := positives + {cid} + collateral;
          cache := cache.Put(cid, data);
          return Ok(cid), true;
      }
    }

    /** Reading is exact whatever the filter and the cache hold, and never yields bytes of another hash. */
    method Get(cid: Cid) returns (r: Result<Option<Blob>>)
      requires Valid()
      modifies this
      ensures Valid() && (old(Intact()) ==> Intact())
      ensures disk == old(disk) && positives == old(positives)
      ensures r.Ok? && r.value.Some? ==> hash(r.value.value) == cid
      ensures r.Err? <==> cid !in old(cache).values && cid in disk && hash(disk[cid]) != cid
      ensures r.Err? ==> r.error == IntegrityViolation(cid, hash(disk[cid]))
      ensures r.Ok? && cid !in old(cache).values ==> r.value == Lookup(disk, cid)
      ensures old(Intact()) ==> r == Ok(Lookup(disk, cid))
      ensures cache ==
        if cid in old(cache).values then old(cache).Touch(cid) else
        if r.Ok? && r.value.Some? then old(cache).Put(cid, r.value.value) else old(cache)
      ensures metrics == old(metrics).(
        gets := old(metrics).gets + 1,
        cacheHits := old(metrics).cacheHits + Tick(cid in old(cache).values),
        cacheMisses := old(metrics).cacheMisses + Tick(cid !in old(cache).values),
        bloomFalsePositives := old(metrics).bloomFalsePositives +
          Tick(cid !in old(cache).values && cid in positives && cid !in disk),
        integrityViolations := old(metrics).integrityViolations + Tick(r.Err?))
    {
      metrics := metrics.(gets := metrics.gets + 1);
      match cache.Get(cid) {
        case Some(bytes) =>
          cache := cache.Touch(cid);
          metrics := metrics.(cacheHits := metrics.cacheHits + 1);
          return Ok(Some(bytes));
        case None =>
      }
      metrics := metrics.(cacheMisses := metrics.cacheMisses + 1);
      if cid !in positives {
        return Ok(None);
      }
      if cid !in disk {
        metrics := metrics.(bloomFalsePositives := metrics.bloomFalsePositives + 1);
        return Ok(None);
      }
      var data := disk[cid];
      var actual := hash(data);
      if actual != cid {
        metrics := metrics.(integrityViolations := metrics.integrityViolations + 1);
        return Err(IntegrityViolation(cid, actual));
      }
      cache := cache.Put(cid, data);
      r := Ok(Some(data));
    }

    method Contains(cid: Cid) returns (b: bool)
      requires Valid()
      ensures b <==> cid in disk
    {
      if cid !in positives {
        return false;
      }
      b := cid in disk;
    }

    /** The filter keeps the deleted name; later reads find no file. */
    method Delete(cid: Cid, removed: bool) returns (r: Result<bool>)
      requires Valid()
      modifies this
      ensures Valid() && (old(Intact()) ==> Intact())
      ensures r == if cid in old(disk) && !removed then Err(IoError) else Ok(cid in old(disk))
      ensures disk == if removed then old(disk) - {cid} else old(disk)
      ensures positives == old(positives) && metrics == old(metrics)
      ensures cache == if r == Ok(true) then old(cache).Pop(cid) else old(cache)
    {
      if cid !in disk {
        return Ok(false);
      }
      if !removed {
        return Err(IoError);
      }
      disk := disk - {cid};
      cache := cache.Pop(cid);
      r := Ok(true);
    }

    /** Not an operation: a file's bytes change, or the file goes, without the store knowing. */
    method Tamper(cid: Cid, bytes: Option<Blob>)
      requires Valid()
      modifies this`disk
      ensures Valid()
      ensures cid !in old(disk) ==> disk == old(disk)
      ensures cid in old(disk) ==> disk == if bytes.Some? then old(disk)[cid := bytes.value] else old(disk) - {cid}
    {
      if cid in disk {
        disk := if bytes.Some? then disk[cid := bytes.value] else disk - {cid};
      }
    }
  }

  // ----- whole runs -----

  datatype Operation =
    | PutOp(data: Blob, write: Write, collateral: set<Cid>)
    | GetOp(cid: Cid)
    | ContainsOp(cid: Cid)
    | DeleteOp(cid: Cid, removed: bool)
    | TamperOp(cid: Cid, bytes: Option<Blob>)

  datatype Reply =
    | PutDone(put: Result<Cid>)
    | GetDone(got: Result<Option<Blob>>)
    | ContainsDone(present: bool)
    | DeleteDone(deleted: Result<bool>)
    | Silent

  function PlainReply(hash: Blob -> Cid, disk: map<Cid, Blob>, op: Operation): Reply
  {
    match op
    case PutOp(data, write, _) => PutDone(PutReply(hash, disk, data, write))
    case GetOp(cid) => GetDone(Ok(Lookup(disk, cid)))
    case ContainsOp(cid) => ContainsDone(cid in disk)
    case DeleteOp(cid, removed) => DeleteDone(if cid in disk && !removed then Err(IoError) else Ok(cid in disk))
    case TamperOp(_, _) => Silent
  }

  function PlainAfter(hash: Blob -> Cid, disk: map<Cid, Blob>, op: Operation): map<Cid, Blob>
  {
    match op
    case PutOp(data, write, _) => AfterPut(hash, disk, data, write)
    case DeleteOp(cid, removed) => if removed then disk - {cid} else disk
    case _ => disk
  }

  /** The map after the first `n` operations. */
  function PlainDisk(hash: Blob -> Cid, disk: map<Cid, Blob>, ops: seq<Operation>, n: nat): map<Cid, Blob>
    requires n <= |ops|
  {
    if n == 0 then disk else PlainAfter(hash, PlainDisk(hash, disk, ops, n - 1), ops[n - 1])
  }

  method Apply(store: ContentAddressedStore, op: Operation) returns (reply: Reply)
    requires store.Valid()
    modifies store
    ensures store.Valid()
    ensures op.GetOp? ==> reply.GetDone?
    ensures reply.GetDone? && reply.got.Ok? && reply.got.value.Some? ==>
      op.GetOp? && store.hash(reply.got.value.value) == op.cid
    ensures old(store.Intact()) && !op.TamperOp? ==>
      && store.Intact()
      && reply == PlainReply(store.hash, old(store.disk), op)
      && store.disk == PlainAfter(store.hash, old(store.disk), op)
  {
    match op {
      case PutOp(data, write, collateral) =>
        var r, _ := store.Put(data, write, collateral);
        reply := PutDone(r);
      case GetOp(cid) =>
        var r := store.Get(cid);
        reply := GetDone(r);
      case ContainsOp(cid) =>
        var b := store.Contains(cid);
        reply := ContainsDone(b);
      case DeleteOp(cid, removed) =>
        var r := store.Delete(cid, removed);
        reply := DeleteDone(r);
      case TamperOp(cid, bytes) =>
        store.Tamper(cid, bytes);
        reply := Silent;
    }
  }

  ghost predicate Untampered(ops: seq<Operation>)
  {
    forall i :: 0 <= i < |ops| ==> !ops[i].TamperOp?
  }

  /**
   Over every run the store answers as the plain map does, for any cache capacity
   and any filter; and even with files changed underneath, no read yields bytes
   whose hash is not the name asked for.
   */
  method Run(store: ContentAddressedStore, ops: seq<Operation>) returns (replies: seq<Reply>)
    requires store.Valid()
    modifies store
    ensures store.Valid() && |replies| == |ops|
    ensures forall i :: 0 <= i < |ops| && ops[i].GetOp? ==>
      && replies[i].GetDone?
      && (replies[i].got.Ok? && replies[i].got.value.Some? ==> store.hash(replies[i].got.value.value) == ops[i].cid)
    ensures old(store.Intact()) && Untampered(ops) ==>
      && store.disk == PlainDisk(store.hash, old(store.disk), ops, |ops|)
      && forall i :: 0 <= i < |ops| ==>
        replies[i] == PlainReply(store.hash, PlainDisk(store.hash, old(store.disk), ops, i), ops[i])
  {
    replies := [];
    for n := 0 to |ops|
      invariant store.Valid() && |replies| == n
      invariant forall i :: 0 <= i < n && ops[i].GetOp? ==>
        && replies[i].GetDone?
        && (replies[i].got.Ok? && replies[i].got.value.Some? ==> store.hash(replies[i].got.value.value) == ops[i].cid)
      invariant old(store.Intact()) && Untampered(ops) ==>
        && store.Intact()
        && store.disk == PlainDisk(store.hash, old(store.disk), ops, n)
        && forall i :: 0 <= i < n ==>
          replies[i] == PlainReply(store.hash, PlainDisk(store.hash, old(store.disk), ops, i), ops[i])
    {
      var reply := Apply(store, ops[n]);
      replies := replies + [reply];
    }
  }

  // ----- what the plain map promises -----

  /** Marks the pairs to which the absence of collisions is applied. */
  predicate Compared(a: Blob, b: Blob) { true }

  /** No two different blobs of `world` have the same hash; `world` stands for all that is ever hashed. */
  ghost predicate CollisionFree(hash: Blob -> Cid, world: iset<Blob>)
  {
    forall a, b {:trigger Compared(a, b)} :: a in world && b in world && hash(a) == hash(b) ==> a == b
  }

  lemma SameBlob(hash: Blob -> Cid, world: iset<Blob>, a: Blob, b: Blob)
    requires CollisionFree(hash, world) && a in world && b in world && hash(a) == hash(b)
    ensures a == b
  {
    assert Compared(a, b);
  }

  ghost predicate Within(disk: map<Cid, Blob>, world: iset<Blob>)
  {
    forall c :: c in disk ==> disk[c] in world
  }

  ghost predicate Named(hash: Blob -> Cid, disk: map<Cid, Blob>)
  {
    forall c :: c in disk ==> hash(disk[c]) == c
  }

  /** Some successful put of `data` is operation `start`, with no successful delete of its name before `end`. */
  ghost predicate Kept(hash: Blob -> Cid, ops: seq<Operation>, data: Blob, start: nat, end: nat)
  {
    && start < end <= |ops| && ops[start].PutOp? && ops[start].data == data && ops[start].write == Written
    && forall j :: start < j < end ==> !(ops[j].DeleteOp? && ops[j].removed && ops[j].cid == hash(data))
  }

  /** What was put, and not deleted since, is what a read returns. */
  lemma {:induction false} PutThenGet(hash: Blob -> Cid, world: iset<Blob>, disk: map<Cid, Blob>, ops: seq<Operation>,
                                      data: Blob, start: nat, end: nat)
    requires CollisionFree(hash, world) && Named(hash, disk) && Within(disk, world)
    requires forall i :: 0 <= i < |ops| && ops[i].PutOp? ==> ops[i].data in world
    requires Kept(hash, ops, data, start, end)
    ensures Lookup(PlainDisk(hash, disk, ops, end), hash(data)) == Some(data)
    decreases end
  {
    var before := PlainDisk(hash, disk, ops, end - 1);
    if end - 1 > start {
      PutThenGet(hash, world, disk, ops, data, start, end - 1);
    } else if hash(data) in before {
      NamedKept(hash, world, disk, ops, end - 1);
      SameBlob(hash, world, before[hash(data)], data);
    }
  }

  lemma {:induction false} NamedKept(hash: Blob -> Cid, world: iset<Blob>, disk: map<Cid, Blob>, ops: seq<Operation>,
                                     n: nat)
    requires Named(hash, disk) && Within(disk, world) && n <= |ops|
    requires forall i :: 0 <= i < |ops| && ops[i].PutOp? ==> ops[i].data in world
    ensures Named(hash, PlainDisk(hash, disk, ops, n)) && Within(PlainDisk(hash, disk, ops, n), world)
  {
    if n > 0 { NamedKept(hash, world, disk, ops, n - 1); }
  }
}
