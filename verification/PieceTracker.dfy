/**
 Which node holds how many coded pieces of which content.

 Identifiers are numbers here, in the order of their bytes.
 */
module PieceTracker {
  import opened Arithmetic
  import opened Listings

  type Cid = nat
  type NodeId = nat

  datatype PieceHolder = PieceHolder(nodeId: NodeId, pieceCount: nat, lastSeen: int)

  // ----- holder lists -----

  ghost predicate OnePerNode(hs: seq<PieceHolder>)
  {
    forall i, j :: 0 <= i < j < |hs| ==> hs[i].nodeId != hs[j].nodeId
  }

  /** The count in the first record of the node, zero without one. */
  function CountOf(hs: seq<PieceHolder>, node: NodeId): nat
  {
    if |hs| == 0 then 0 else if hs[0].nodeId == node then hs[0].pieceCount else CountOf(hs[1..], node)
  }

  function Total(hs: seq<PieceHolder>): nat
  {
    if |hs| == 0 then 0 else hs[0].pieceCount + Total(hs[1..])
  }

  /** The list with one node's count raised to at least that of `h`. */
  function Recorded(hs: seq<PieceHolder>, h: PieceHolder): seq<PieceHolder>
  {
    if |hs| == 0 then [h] else
    if hs[0].nodeId == h.nodeId then [h.(pieceCount := Max(hs[0].pieceCount, h.pieceCount))] + hs[1..]
    else [hs[0]] + Recorded(hs[1..], h)
  }

  ghost predicate Has(hs: seq<PieceHolder>, node: NodeId)
  {
    exists i :: 0 <= i < |hs| && hs[i].nodeId == node
  }

  lemma {:induction false} RecordedIds(hs: seq<PieceHolder>, h: PieceHolder, node: NodeId)
    ensures Has(Recorded(hs, h), node) <==> Has(hs, node) || node == h.nodeId
  {
    var r := Recorded(hs, h);
    if |hs| == 0 {
      assert Has(r, node) <==> r[0].nodeId == node;
    } else {
      HasTail(hs, node); HasTail(r, node);
      if hs[0].nodeId == h.nodeId { assert r[1..] == hs[1..]; } else {
        assert r[1..] == Recorded(hs[1..], h);
        RecordedIds(hs[1..], h, node);
      }
    }
  }

  lemma HasTail(hs: seq<PieceHolder>, node: NodeId)
    requires |hs| > 0
    ensures Has(hs, node) <==> hs[0].nodeId == node || Has(hs[1..], node)
  {
  }

  lemma OnePerNodeTail(hs: seq<PieceHolder>)
    requires |hs| > 0
    ensures OnePerNode(hs) <==> OnePerNode(hs[1..]) && !Has(hs[1..], hs[0].nodeId)
  {
  }

  lemma {:induction false} RecordedOnePerNode(hs: seq<PieceHolder>, h: PieceHolder)
    requires OnePerNode(hs)
    ensures OnePerNode(Recorded(hs, h))
  {
    if |hs| > 0 {
      var r := Recorded(hs, h);
      OnePerNodeTail(hs); OnePerNodeTail(r);
      if hs[0].nodeId == h.nodeId { assert r[1..] == hs[1..]; } else {
        assert r[1..] == Recorded(hs[1..], h);
        RecordedOnePerNode(hs[1..], h);
        RecordedIds(hs[1..], h, hs[0].nodeId);
      }
    }
  }

  /** Recording raises one node's count to the larger of the two and touches no other. */
  lemma {:induction false} RecordedCount(hs: seq<PieceHolder>, h: PieceHolder, node: NodeId)
    ensures CountOf(Recorded(hs, h), node) ==
            if node == h.nodeId then Max(CountOf(hs, node), h.pieceCount) else CountOf(hs, node)
  {
    if |hs| > 0 {
      var r := Recorded(hs, h);
      if hs[0].nodeId == h.nodeId { assert r[1..] == hs[1..]; } else {
        assert r[1..] == Recorded(hs[1..], h);
        RecordedCount(hs[1..], h, node);
      }
    }
  }

  /** The total grows by exactly what the node's count grows by. */
  lemma {:induction false} RecordedTotal(hs: seq<PieceHolder>, h: PieceHolder)
    ensures Total(Recorded(hs, h)) + CountOf(hs, h.nodeId) == Total(hs) + Max(CountOf(hs, h.nodeId), h.pieceCount)
  {
    var r := Recorded(hs, h);
    if |hs| == 0 {
      assert Total(r) == h.pieceCount + Total(r[1..]);
    } else if hs[0].nodeId == h.nodeId {
      assert r[1..] == hs[1..];
    } else {
      assert r[1..] == Recorded(hs[1..], h);
      RecordedTotal(hs[1..], h);
    }
  }

  // ----- removal -----

  function Removed(hs: seq<PieceHolder>, node: NodeId): seq<PieceHolder>
  {
    if |hs| == 0 then [] else (if hs[0].nodeId == node then [] else [hs[0]]) + Removed(hs[1..], node)
  }

  lemma {:induction false} RemovedIds(hs: seq<PieceHolder>, node: NodeId, other: NodeId)
    ensures Has(Removed(hs, node), other) <==> Has(hs, other) && other != node
  {
    if |hs| > 0 {
      var r := Removed(hs, node);
      RemovedIds(hs[1..], node, other);
      HasTail(hs, other);
      if hs[0].nodeId == node { assert r == Removed(hs[1..], node); } else {
        HasTail(r, other);
        assert r[1..] == Removed(hs[1..], node);
      }
    }
  }

  lemma {:induction false} RemovedOnePerNode(hs: seq<PieceHolder>, node: NodeId)
    requires OnePerNode(hs)
    ensures OnePerNode(Removed(hs, node))
  {
    if |hs| > 0 {
      var r := Removed(hs, node);
      OnePerNodeTail(hs);
      RemovedOnePerNode(hs[1..], node);
      if hs[0].nodeId == node { assert r == Removed(hs[1..], node); } else {
        OnePerNodeTail(r);
        assert r[1..] == Removed(hs[1..], node);
        RemovedIds(hs[1..], node, hs[0].nodeId);
      }
    }
  }

  lemma {:induction false} RemovedCount(hs: seq<PieceHolder>, node: NodeId, other: NodeId)
    ensures CountOf(Removed(hs, node), other) == if other == node then 0 else CountOf(hs, other)
  {
    if |hs| > 0 {
      var r := Removed(hs, node);
      RemovedCount(hs[1..], node, other);
      if hs[0].nodeId == node { assert r == Removed(hs[1..], node); } else {
        assert r[1..] == Removed(hs[1..], node);
      }
    }
  }

  /** Removing a node takes exactly its own count from the total. */
  lemma {:induction false} RemovedTotal(hs: seq<PieceHolder>, node: NodeId)
    requires OnePerNode(hs)
    ensures Total(Removed(hs, node)) + CountOf(hs, node) == Total(hs)
  {
    if |hs| > 0 {
      var r := Removed(hs, node);
      OnePerNodeTail(hs);
      RemovedTotal(hs[1..], node);
      if hs[0].nodeId == node {
        assert r == Removed(hs[1..], node);
        CountAbsent(hs[1..], node);
      } else {
        assert r[1..] == Removed(hs[1..], node);
      }
    }
  }

  lemma {:induction false} CountAbsent(hs: seq<PieceHolder>, node: NodeId)
    requires !Has(hs, node)
    ensures CountOf(hs, node) == 0
  {
    if |hs| > 0 {
      HasTail(hs, node);
      CountAbsent(hs[1..], node);
    }
  }

  lemma {:induction false} CountAt(hs: seq<PieceHolder>, i: nat)
    requires OnePerNode(hs) && i < |hs|
    ensures CountOf(hs, hs[i].nodeId) == hs[i].pieceCount
  {
    if i > 0 {
      OnePerNodeTail(hs);
      assert hs[0].nodeId != hs[i].nodeId;
      CountAt(hs[1..], i - 1);
    }
  }

  /** The node's record is the new one, with its time; the other records stay. */
  lemma {:induction false} RecordedHolders(hs: seq<PieceHolder>, h: PieceHolder)
    ensures h.(pieceCount := CountOf(Recorded(hs, h), h.nodeId)) in Recorded(hs, h)
    ensures forall o: PieceHolder :: o.nodeId != h.nodeId ==> (o in Recorded(hs, h) <==> o in hs)
  {
    if |hs| > 0 {
      assert hs == [hs[0]] + hs[1..];
      if hs[0].nodeId != h.nodeId { RecordedHolders(hs[1..], h); }
    }
  }

  lemma {:induction false} RecordedAt(hs: seq<PieceHolder>, h: PieceHolder, i: nat)
    requires i <= |hs| && forall j :: 0 <= j < i ==> hs[j].nodeId != h.nodeId
    requires i < |hs| ==> hs[i].nodeId == h.nodeId
    ensures Recorded(hs, h) ==
            if i < |hs| then hs[i := h.(pieceCount := Max(hs[i].pieceCount, h.pieceCount))] else hs + [h]
  {
    if i > 0 {
      var rest := hs[1..];
      assert forall j :: 0 <= j < i - 1 ==> rest[j] == hs[j + 1];
      RecordedAt(rest, h, i - 1);
      if i < |hs| {
        var x := h.(pieceCount := Max(hs[i].pieceCount, h.pieceCount));
        assert hs[i := x] == [hs[0]] + rest[i - 1 := x];
      } else {
        assert hs + [h] == [hs[0]] + (rest + [h]);
      }
    }
  }

  // ----- the tracker -----

  function HoldersIn(m: map<Cid, seq<PieceHolder>>, cid: Cid): seq<PieceHolder>
  {
    if cid in m then m[cid] else []
  }

  /** The map with the node removed everywhere outside `rest`. */
  function Swept(m: map<Cid, seq<PieceHolder>>, rest: set<Cid>, node: NodeId): map<Cid, seq<PieceHolder>>
  {
    map c | c in m && (c in rest || Removed(m[c], node) != []) :: if c in rest then m[c] else Removed(m[c], node)
  }

  lemma SweptOne(m: map<Cid, seq<PieceHolder>>, rest: set<Cid>, node: NodeId, cid: Cid)
    requires cid in rest && cid in m
    ensures cid in Swept(m, rest, node) && Swept(m, rest, node)[cid] == m[cid]
    ensures Swept(m, rest - {cid}, node) ==
            if Removed(m[cid], node) == [] then Swept(m, rest, node) - {cid}
            else Swept(m, rest, node)[cid := Removed(m[cid], node)]
  {
  }

  /** After a removal no trace of the node is left, every other count stays and totals shrink by its count alone. */
  lemma SweptCounts(m: map<Cid, seq<PieceHolder>>, node: NodeId, cid: Cid, other: NodeId)
    requires forall c :: c in m ==> OnePerNode(m[c])
    ensures var hs, hs' := HoldersIn(m, cid), HoldersIn(Swept(m, {}, node), cid);
      && !Has(hs', node)
      && CountOf(hs', other) == (if other == node then 0 else CountOf(hs, other))
      && Total(hs') + CountOf(hs, node) == Total(hs)
  {
    var hs := HoldersIn(m, cid);
    assert HoldersIn(Swept(m, {}, node), cid) == Removed(hs, node);
    RemovedIds(hs, node, node);
    RemovedCount(hs, node, other);
    RemovedTotal(hs, node);
  }

  class PieceTracker {
    var availability: map<Cid, seq<PieceHolder>>
    var kValues: map<Cid, nat>

    ghost predicate Valid()
      reads this
    {
      forall c :: c in availability ==> |availability[c]| > 0 && OnePerNode(availability[c])
    }

    function Holders(cid: Cid): (hs: seq<PieceHolder>)
      reads this
      ensures Valid() ==> OnePerNode(hs)
    {
      HoldersIn(availability, cid)
    }

    constructor ()
      ensures Valid() && availability == map[] && kValues == map[]
    {
      availability, kValues := map[], map[];
    }

    /** One record per node, holding the largest count announced for it. */
    method RecordPiece(cid: Cid, holder: PieceHolder)
      requires Valid()
      modifies this`availability
      ensures Valid() && availability == old(availability)[cid := Recorded(old(Holders(cid)), holder)]
      ensures forall n :: CountOf(Holders(cid), n) ==
                          if n != holder.nodeId then CountOf(old(Holders(cid)), n)
                          else Max(CountOf(old(Holders(cid)), n), holder.pieceCount)
      ensures holder.(pieceCount := CountOf(Holders(cid), holder.nodeId)) in Holders(cid)
      ensures forall h: PieceHolder :: h.nodeId != holder.nodeId ==> (h in Holders(cid) <==> h in old(Holders(cid)))
      ensures Total(Holders(cid)) - old(Total(Holders(cid))) ==
        CountOf(Holders(cid), holder.nodeId) - old(CountOf(Holders(cid), holder.nodeId))
    {
      var entry := Holders(cid);
      var i := 0;
      while i < |entry| && entry[i].nodeId != holder.nodeId
        invariant i <= |entry| && forall j :: 0 <= j < i ==> entry[j].nodeId != holder.nodeId
      {
        i := i + 1;
      }
      RecordedAt(entry, holder, i);
      RecordedOnePerNode(entry, holder);
      RecordedTotal(entry, holder);
      RecordedHolders(entry, holder);
      forall n { RecordedCount(entry, holder, n); }
      if i < |entry| {
        entry := entry[i := holder.(pieceCount := Max(entry[i].pieceCount, holder.pieceCount))];
      } else {
        entry := entry + [holder];
      }
      availability := availability[cid := entry];
    }

    method AvailableCount(cid: Cid) returns (n: nat)
      ensures n == Total(Holders(cid))
    {
      n := 0;
      var hs := Holders(cid);
      for i := 0 to |hs|
        invariant n + Total(hs[i..]) == Total(hs)
      {
        assert hs[i..][1..] == hs[i + 1..];
        n := n + hs[i].pieceCount;
      }
    }

    method LocalPieceCount(cid: Cid, node: NodeId) returns (n: nat)
      ensures n == CountOf(Holders(cid), node)
    {
      var hs := Holders(cid);
      for i := 0 to |hs|
        invariant CountOf(hs[i..], node) == CountOf(hs, node)
      {
        assert hs[i..][1..] == hs[i + 1..];
        if hs[i].nodeId == node {
          return hs[i].pieceCount;
        }
      }
      n := 0;
    }

    /** The first value recorded for a content stays. */
    method RecordK(cid: Cid, k: nat)
      modifies this`kValues
      ensures kValues == if cid in old(kValues) then old(kValues) else old(kValues)[cid := k]
    {
      if cid !in kValues {
        kValues := kValues[cid := k];
      }
    }

    /** Contents left without holders are forgotten, with their `k`; `SweptCounts` says what the rest is. */
    method RemoveNode(node: NodeId)
      requires Valid()
      modifies this
      ensures Valid()
      ensures availability == Swept(old(availability), {}, node)
      ensures kValues == old(kValues) - (old(availability).Keys - availability.Keys)
    {
      ghost var before := availability;
      var rest, emptied := availability.Keys, {};
      assert Swept(before, rest, node) == before;
      while rest != {}
        invariant rest <= before.Keys && kValues == old(kValues)
        invariant availability == Swept(before, rest, node)
        invariant emptied == before.Keys - availability.Keys
      {
        var cid :| cid in rest;
        var kept := Retain(availability[cid], node);
        SweptOne(before, rest, node, cid);
        if kept == [] {
          availability := availability - {cid};
          emptied := emptied + {cid};
        } else {
          availability := availability[cid := kept];
        }
        rest := rest - {cid};
      }
      kValues := kValues - emptied;
      forall c | c in before ensures OnePerNode(Removed(before[c], node)) { RemovedOnePerNode(before[c], node); }
    }

    method SortedCids() returns (cids: seq<Cid>)
      ensures cids == Listed(availability.Keys)
    {
      cids := InOrder(availability.Keys);
    }
  }

  method Retain(hs: seq<PieceHolder>, node: NodeId) returns (kept: seq<PieceHolder>)
    ensures kept == Removed(hs, node)
  {
    kept := [];
    for i := 0 to |hs|
      invariant kept + Removed(hs[i..], node) == Removed(hs, node)
    {
      assert hs[i..][1..] == hs[i + 1..];
      ghost var rest := Removed(hs[i + 1..], node);
      if hs[i].nodeId != node {
        assert kept + ([hs[i]] + rest) == kept + [hs[i]] + rest;
        kept := kept + [hs[i]];
      }
    }
  }
}
