/**
 Who repairs: the deterministic election run by every holder on its own.

 Reputation is an exact real here.
 */
module Repair {
  import opened Wrappers
  import opened Sorting
  import opened Listings
  import opened PieceTracker
  import opened Scanner

  // ----- ranking -----

  datatype NodeRanking = NodeRanking(nodeId: NodeId, uptimeSecs: nat, reputation: real)

  /** Higher uptime, then higher reputation, then lower identifier. */
  predicate NotWorse(a: NodeRanking, b: NodeRanking)
  {
    a.uptimeSecs > b.uptimeSecs ||
    (a.uptimeSecs == b.uptimeSecs &&
     (a.reputation > b.reputation || (a.reputation == b.reputation && a.nodeId <= b.nodeId)))
  }

  /** Longer up; or as long, with a better reputation; or level in both, with the lower identifier. */
  predicate Beats(a: NodeRanking, b: NodeRanking)
  {
    || a.uptimeSecs > b.uptimeSecs
    || (a.uptimeSecs == b.uptimeSecs && a.reputation > b.reputation)
    || (a.uptimeSecs == b.uptimeSecs && a.reputation == b.reputation && a.nodeId < b.nodeId)
  }

  ghost predicate Unbeaten(rs: seq<NodeRanking>, w: nat)
    requires w < |rs|
  {
    forall j :: 0 <= j < |rs| ==> !Beats(rs[j], rs[w])
  }

  lemma NotWorseIff(a: NodeRanking, b: NodeRanking)
    ensures NotWorse(a, b) <==> !Beats(b, a)
  {
  }

  lemma NotWorseIsTotal()
    ensures TotalPreorder<NodeRanking>(NotWorse)
  {
    forall a: NodeRanking, b: NodeRanking, c: NodeRanking
      ensures (NotWorse(a, b) || NotWorse(b, a)) && (NotWorse(a, b) && NotWorse(b, c) ==> NotWorse(a, c))
    {
    }
  }

  ghost predicate DistinctNodes(rs: seq<NodeRanking>)
  {
    forall i, j :: 0 <= i < j < |rs| ==> rs[i].nodeId != rs[j].nodeId
  }

  /** `rs` from best to worst. */
  ghost predicate IsRanking(rs: seq<NodeRanking>, ranked: seq<NodeRanking>)
  {
    multiset(ranked) == multiset(rs) && SortedBy(NotWorse, ranked)
  }

  function Ids(rs: seq<NodeRanking>): (ids: seq<NodeId>)
    ensures |ids| == |rs| && forall i :: 0 <= i < |rs| ==> ids[i] == rs[i].nodeId
  {
    seq<NodeId>(|rs|, i requires 0 <= i < |rs| => rs[i].nodeId)
  }

  method RankProviders(providers: seq<NodeRanking>) returns (ids: seq<NodeId>)
    ensures exists ranked :: IsRanking(providers, ranked) && ids == Ids(ranked)
  {
    NotWorseIsTotal();
    var sorted := Sort(NotWorse, providers);
    ids := Ids(sorted);
  }

  /** The ranking depends on the candidates alone, not on the order in which they were found. */
  lemma RankingAgreement(a: seq<NodeRanking>, b: seq<NodeRanking>, ra: seq<NodeRanking>, rb: seq<NodeRanking>)
    requires multiset(a) == multiset(b) && IsRanking(a, ra) && IsRanking(b, rb)
    ensures ra == rb
  {
    SortedUnique(NotWorse, ra, rb);
  }

  /** The first of the best; every ranking of the same candidates starts with that node. */
  method SelectCoordinator(providers: seq<NodeRanking>) returns (winner: Option<NodeId>)
    ensures winner.None? <==> providers == []
    ensures forall ranked: seq<NodeRanking> :: IsRanking(providers, ranked) && |ranked| > 0 ==>
      winner == Some(ranked[0].nodeId)
    ensures winner.Some? ==>
      exists w :: 0 <= w < |providers| && winner.value == providers[w].nodeId && Unbeaten(providers, w)
  {
    if |providers| == 0 {
      return None;
    }
    var best := 0;
    for n := 1 to |providers|
      invariant best < n
      invariant forall j :: 0 <= j < n ==> NotWorse(providers[best], providers[j])
    {
      if !NotWorse(providers[best], providers[n]) {
        best := n;
      }
    }
    forall ranked | IsRanking(providers, ranked) && |ranked| > 0 ensures ranked[0] == providers[best] {
      HeadIsBest(providers, ranked, best);
    }
    assert Unbeaten(providers, best);
    winner := Some(providers[best].nodeId);
  }

  lemma HeadIsBest(rs: seq<NodeRanking>, ranked: seq<NodeRanking>, best: nat)
    requires IsRanking(rs, ranked) && |ranked| > 0 && best < |rs|
    requires forall j :: 0 <= j < |rs| ==> NotWorse(rs[best], rs[j])
    ensures ranked[0] == rs[best]
  {
    assert ranked[0] in multiset(rs) && rs[best] in multiset(ranked);
    var j :| 0 <= j < |rs| && rs[j] == ranked[0];
    var i :| 0 <= i < |ranked| && ranked[i] == rs[best];
    assert i > 0 ==> NotWorse(ranked[0], ranked[i]);
  }

  // ----- one node's decision -----

  function TargetCount(r: RepairRequest): nat
  {
    match r
    case Critical(_, _, k) => k
    case Normal(_, _, target) => target
  }

  function Deficit(r: RepairRequest): nat
  {
    if TargetCount(r) > r.available then TargetCount(r) - r.available else 0
  }

  /** The deficit is what is missing: with `extra` more pieces a content below its target is healthy, and one below k
      no longer critical, exactly if `extra` covers the deficit. */
  lemma DeficitIsMissing(cid: Cid, available: nat, k: nat, extra: nat)
    requires Judged(cid, available, k).Some?
    ensures var r, r' := Judged(cid, available, k).value, Judged(cid, available + extra, k);
            && Deficit(r) > 0
            && (r.Normal? ==> (r'.None? <==> extra >= Deficit(r)))
            && (r.Critical? ==> (r'.Some? && r'.value.Critical? <==> extra < Deficit(r)))
  {
    AsksForMissing(cid, available, k, extra);
  }

  /** What one node knows: the holder records and who it believes alive. */
  datatype View = View(holders: seq<PieceHolder>, alive: set<NodeId>)

  predicate Candidate(view: View, self: NodeId, node: NodeId)
  {
    CountOf(view.holders, node) >= 2 && (node in view.alive || node == self)
  }

  /** A node scans exactly the contents of which it is a candidate repairer by its own records, whoever else is
      alive: those of which it holds the two pieces that recoding takes. */
  lemma ScansWhatItCanRepair(avail: map<Cid, seq<PieceHolder>>, self: NodeId, cid: Cid, alive: set<NodeId>)
    ensures cid in EligibleCids(avail, self) <==> cid in avail && Candidate(View(avail[cid], alive), self, self)
    ensures cid in EligibleCids(avail, self) <==> CountOf(HoldersIn(avail, cid), self) >= 2
  {
  }

  ghost function Candidates(view: View, self: NodeId): set<NodeId>
  {
    set h | h in view.holders && Candidate(view, self, h.nodeId) :: h.nodeId
  }

  function First(d: nat, ids: seq<NodeId>): seq<NodeId>
  {
    if |ids| <= d then ids else ids[..d]
  }

  /** The node is among the first `d` of the candidates it sees. */
  ghost predicate Elects(view: View, self: NodeId, d: nat)
  {
    self in First(d, Listed(Candidates(view, self)))
  }

  ghost predicate Ranked(rs: seq<NodeRanking>, node: NodeId)
  {
    exists i :: 0 <= i < |rs| && rs[i].nodeId == node
  }

  lemma RankedPush(rs: seq<NodeRanking>, r: NodeRanking, node: NodeId)
    ensures Ranked(rs + [r], node) <==> Ranked(rs, node) || node == r.nodeId
  {
    assert (rs + [r])[|rs|] == r;
    if Ranked(rs, node) {
      var i :| 0 <= i < |rs| && rs[i].nodeId == node;
      assert (rs + [r])[i].nodeId == node;
    }
  }

  lemma HasPush(hs: seq<PieceHolder>, i: nat, node: NodeId)
    requires i < |hs|
    ensures Has(hs[..i + 1], node) <==> Has(hs[..i], node) || node == hs[i].nodeId
  {
  }

  lemma InCandidates(view: View, self: NodeId, node: NodeId)
    ensures node in Candidates(view, self) <==> Has(view.holders, node) && Candidate(view, self, node)
  {
  }

  /** Uptime and reputation are the same for all, so the identifier decides. */
  ghost predicate Level(rs: seq<NodeRanking>)
  {
    forall i :: 0 <= i < |rs| ==> rs[i].uptimeSecs == 0 && rs[i].reputation == 0.5
  }

  method CollectRankings(tracker: PieceTracker, cid: Cid, alive: set<NodeId>, self: NodeId)
    returns (rankings: seq<NodeRanking>)
    requires tracker.Valid()
    ensures DistinctNodes(rankings) && Level(rankings)
    ensures forall n :: Ranked(rankings, n) <==> n in Candidates(View(tracker.Holders(cid), alive), self)
  {
    var hs := tracker.Holders(cid);
    ghost var view := View(hs, alive);
    rankings := [];
    for i := 0 to |hs|
      invariant DistinctNodes(rankings) && Level(rankings)
      invariant forall n :: Ranked(rankings, n) <==> Has(hs[..i], n) && Candidate(view, self, n)
    {
      var count := tracker.LocalPieceCount(cid, hs[i].nodeId);
      forall n ensures Has(hs[..i + 1], n) <==> Has(hs[..i], n) || n == hs[i].nodeId { HasPush(hs, i, n); }
      if count >= 2 && (hs[i].nodeId in alive || hs[i].nodeId == self) {
        var r := NodeRanking(hs[i].nodeId, 0, 0.5);
        forall n ensures Ranked(rankings + [r], n) <==> Ranked(rankings, n) || n == r.nodeId {
          RankedPush(rankings, r, n);
        }
        assert !Has(hs[..i], r.nodeId) && !Ranked(rankings, r.nodeId);
        rankings := rankings + [r];
      }
    }
    assert hs[..|hs|] == hs;
    forall n
      ensures n in Candidates(view, self) <==> Has(hs, n) && Candidate(view, self, n)
    {
      InCandidates(view, self, n);
    }
  }

  lemma SortedPositions(rs: seq<NodeRanking>, ranked: seq<NodeRanking>)
    requires multiset(rs) == multiset(ranked) && DistinctNodes(rs)
    ensures DistinctNodes(ranked) && forall n :: Ranked(rs, n) <==> Ranked(ranked, n)
  {
    forall n ensures Ranked(rs, n) <==> Ranked(ranked, n) { SameNodes(rs, ranked, n); SameNodes(ranked, rs, n); }
    var id := (r: NodeRanking) => r.nodeId;
    assert DistinctBy(id, rs);
    DistinctInAnyOrder(id, rs, ranked);
    assert DistinctNodes(ranked) by {
      forall i, j | 0 <= i < j < |ranked| ensures ranked[i].nodeId != ranked[j].nodeId {
        assert id(ranked[i]) != id(ranked[j]);
      }
    }
  }

  lemma SameNodes(a: seq<NodeRanking>, b: seq<NodeRanking>, node: NodeId)
    requires multiset(a) == multiset(b)
    ensures Ranked(a, node) ==> Ranked(b, node)
  {
    if Ranked(a, node) {
      var i :| 0 <= i < |a| && a[i].nodeId == node;
      assert a[i] in multiset(b);
      var j :| 0 <= j < |b| && b[j] == a[i];
    }
  }

  /** Steps 1 to 4 of a repair: does this node take part? */
  method ExecuteRepair(tracker: PieceTracker, alive: set<NodeId>, self: NodeId, request: RepairRequest)
    returns (elected: bool)
    requires tracker.Valid()
    ensures elected <==> Elects(View(tracker.Holders(request.cid), alive), self, Deficit(request))
  {
    var deficit := Deficit(request);
    if deficit == 0 {
      return false;
    }
    ghost var view := View(tracker.Holders(request.cid), alive);
    var rankings := CollectRankings(tracker, request.cid, alive, self);
    if rankings == [] {
      return false;
    }
    var ranked := RankProviders(rankings);
    ghost var order :| IsRanking(rankings, order) && ranked == Ids(order);
    RankedByIdentifier(rankings, order, Candidates(view, self));
    elected := self in (if |ranked| < deficit then ranked else ranked[..deficit]);
  }

  /** With level uptimes and reputations the ranking is the listing of the candidates. */
  lemma RankedByIdentifier(rs: seq<NodeRanking>, ranked: seq<NodeRanking>, s: set<NodeId>)
    requires DistinctNodes(rs) && Level(rs) && IsRanking(rs, ranked) && forall n :: Ranked(rs, n) <==> n in s
    ensures Ids(ranked) == Listed(s)
  {
    SortedPositions(rs, ranked);
    var ids := Ids(ranked);
    forall i, j | 0 <= i < j < |ids| ensures ids[i] < ids[j] {
      assert NotWorse(ranked[i], ranked[j]);
      assert ranked[i] in multiset(rs) && ranked[j] in multiset(rs);
    }
    forall n ensures n in s <==> n in ids {
      assert Ranked(ranked, n) <==> n in ids;
    }
    ListingUnique(ids, Listed(s), s);
  }

  // ----- all nodes together -----

  /** The pieces missing by the node's own request; a node without a request misses none. */
  ghost function Wanted(requests: map<NodeId, RepairRequest>, n: NodeId): nat
  {
    if n in requests then Deficit(requests[n]) else 0
  }

  /** The nodes that decide to repair, each on its own view and its own request. */
  ghost function Elected(views: map<NodeId, View>, requests: map<NodeId, RepairRequest>): set<NodeId>
  {
    set n | n in views && Elects(views[n], n, Wanted(requests, n))
  }

  /** A view's records say that exactly the nodes in `able` hold two pieces or more. */
  ghost predicate Knows(view: View, able: set<NodeId>)
  {
    forall m :: m in able <==> Has(view.holders, m) && CountOf(view.holders, m) >= 2
  }

  /** Every node knows the same able nodes, each of which takes part; nothing is said about who is seen alive. */
  ghost predicate Shared(views: map<NodeId, View>, able: set<NodeId>)
  {
    able <= views.Keys && forall n :: n in views ==> Knows(views[n], able)
  }

  /** The able nodes before n that n sees alive. */
  ghost function SeenBefore(view: View, able: set<NodeId>, n: NodeId): set<NodeId>
  {
    set m | m in able && m < n && m in view.alive
  }

  ghost function Before(s: set<NodeId>, n: NodeId): set<NodeId>
  {
    set m | m in s && m < n
  }

  /** A member is among the first d exactly when fewer than d are before it. */
  lemma FirstIff(s: set<NodeId>, n: NodeId, d: nat)
    ensures n in First(d, Listed(s)) <==> n in s && |Before(s, n)| < d
  {
    var ks := Listed(s);
    if n in s {
      var i :| 0 <= i < |ks| && ks[i] == n;
      assert Listing(ks[..i], Before(s, n)) by {
        forall m ensures m in Before(s, n) <==> m in ks[..i] { Position(ks, i, m); }
      }
      ListingUnique(ks[..i], ks[..i], Before(s, n));
      Position(First(d, ks), |First(d, ks)|, n);
      if i < d { assert First(d, ks)[i] == n; }
    }
  }

  /** In an ascending list, what is below the i-th entry comes before it. */
  lemma Position(ks: seq<NodeId>, i: nat, m: NodeId)
    requires i <= |ks| && forall a, b :: 0 <= a < b < |ks| ==> ks[a] < ks[b]
    ensures i < |ks| ==> (m in ks[..i] <==> m in ks && m < ks[i])
  {
    if i < |ks| && m in ks && m < ks[i] {
      var j :| 0 <= j < |ks| && ks[j] == m;
      assert j < i;
      assert ks[..i][j] == m;
    }
  }

  /** Whoever is seen alive: a node elects itself exactly if it is able and sees fewer than d able nodes before it. */
  lemma ElectsIff(view: View, able: set<NodeId>, n: NodeId, d: nat)
    requires Knows(view, able)
    ensures Elects(view, n, d) <==> n in able && |SeenBefore(view, able, n)| < d
  {
    var s := Candidates(view, n);
    forall m ensures m in s <==> m in able && (m in view.alive || m == n) { InCandidates(view, n, m); }
    FirstIff(s, n, d);
    assert Before(s, n) == SeenBefore(view, able, n);
  }

  /** Of the able nodes, exactly the first d see fewer able nodes before them than they miss pieces. */
  ghost predicate Informed(views: map<NodeId, View>, able: set<NodeId>, requests: map<NodeId, RepairRequest>, d: nat)
    requires able <= views.Keys
  {
    forall n :: n in able ==>
      (n in First(d, Listed(able)) <==> |SeenBefore(views[n], able, n)| < Wanted(requests, n))
  }

  lemma FirstOfListing(s: set<NodeId>, d: nat) returns (first: set<NodeId>)
    ensures first <= s && |first| == (if |s| <= d then |s| else d)
    ensures forall n :: n in first <==> n in First(d, Listed(s))
  {
    var ks := First(d, Listed(s));
    first := set n | n in s && n in ks;
    assert Listing(ks, first);
    ListingUnique(ks, ks, first);
  }

  /** An able node among the first, as many as it misses pieces, always elects itself. */
  lemma FirstAreElected(views: map<NodeId, View>, able: set<NodeId>, requests: map<NodeId, RepairRequest>, n: NodeId)
    requires Shared(views, able) && n in First(Wanted(requests, n), Listed(able))
    ensures n in Elected(views, requests)
  {
    var d := Wanted(requests, n);
    FirstIff(able, n, d);
    ElectsIff(views[n], able, n, d);
    SubsetSize(SeenBefore(views[n], able, n), Before(able, n));
  }

  lemma ElectedIffInformed(views: map<NodeId, View>, able: set<NodeId>, requests: map<NodeId, RepairRequest>, d: nat,
                           first: set<NodeId>)
    requires Shared(views, able) && first <= able && forall n :: n in first <==> n in First(d, Listed(able))
    ensures Elected(views, requests) <= able
    ensures Elected(views, requests) == first <==> Informed(views, able, requests, d)
  {
    var elected := Elected(views, requests);
    forall n | n in views
      ensures n in elected <==> n in able && |SeenBefore(views[n], able, n)| < Wanted(requests, n)
    {
      ElectsIff(views[n], able, n, Wanted(requests, n));
    }
    assert elected == first <==> forall n :: n in able ==> (n in first <==> n in elected);
  }

  /** A longer start of a list has all a shorter one has. */
  lemma MoreAreFirst(able: set<NodeId>, n: NodeId, d: nat, e: nat)
    requires n in First(d, Listed(able)) && d <= e
    ensures n in First(e, Listed(able))
  {
    FirstIff(able, n, d);
    FirstIff(able, n, e);
  }

  /** A set between the first d and all is the first d exactly if it is no larger. */
  lemma FirstBySize(first: set<NodeId>, elected: set<NodeId>, able: set<NodeId>, d: nat)
    requires first <= elected <= able && |first| == if |able| <= d then |able| else d
    ensures elected == first <==> |elected| == |first|
    ensures elected == first <==> |elected| <= d
  {
    SubsetSize(first, elected);
    SubsetSize(first, able);
  }

  /**
   For any views of who is alive and any requests: the elected are exactly the first d
   able nodes if and only if, of the able nodes, exactly those see fewer able nodes before
   them than they miss pieces.  If no able node misses fewer than d, at least the first d
   are elected, and no more than d exactly in that case.
   */
  lemma ElectionTheorem(views: map<NodeId, View>, able: set<NodeId>, requests: map<NodeId, RepairRequest>, d: nat)
    requires Shared(views, able)
    ensures (forall n :: n in Elected(views, requests) <==> n in First(d, Listed(able))) <==>
            Informed(views, able, requests, d)
    ensures (forall n :: n in able ==> Wanted(requests, n) >= d) ==>
      && (forall n :: n in First(d, Listed(able)) ==> n in Elected(views, requests))
      && (|Elected(views, requests)| == (if |able| <= d then |able| else d) <==> Informed(views, able, requests, d))
      && (|Elected(views, requests)| <= d <==> Informed(views, able, requests, d))
  {
    var first := FirstOfListing(able, d);
    var elected := Elected(views, requests);
    ElectedIffInformed(views, able, requests, d, first);
    assert (forall n :: n in elected <==> n in first) <==> elected == first;
    if forall n :: n in able ==> Wanted(requests, n) >= d {
      forall n | n in first ensures n in elected {
        MoreAreFirst(able, n, d, Wanted(requests, n));
        FirstAreElected(views, able, requests, n);
      }
      FirstBySize(first, elected, able, d);
    }
  }

  /** A round on one request, started at or below its target, does not end above it exactly if the able nodes are
      informed. */
  lemma RoundMeetsTarget(views: map<NodeId, View>, able: set<NodeId>, requests: map<NodeId, RepairRequest>,
                         request: RepairRequest)
    requires Shared(views, able) && request.available <= TargetCount(request)
    requires forall n :: n in able ==> n in requests && requests[n] == request
    ensures request.available + |Elected(views, requests)| <= TargetCount(request) <==>
            Informed(views, able, requests, Deficit(request))
  {
    ElectionTheorem(views, able, requests, Deficit(request));
  }

  /** Blind able nodes that miss anything all elect themselves, however little it is. */
  lemma SplitVote(views: map<NodeId, View>, able: set<NodeId>, requests: map<NodeId, RepairRequest>)
    requires Shared(views, able)
    requires forall n :: n in able ==> views[n].alive == {} && Wanted(requests, n) > 0
    ensures Elected(views, requests) == able
  {
    forall n ensures n in Elected(views, requests) <==> n in able {
      if n in views {
        ElectsIff(views[n], able, n, Wanted(requests, n));
        if n in able { assert SeenBefore(views[n], able, n) == {}; }
      }
    }
  }

  // ----- nodes that heard the same announcements -----

  /** The records without the local times at which they were confirmed. */
  function Untimed(hs: seq<PieceHolder>): (r: seq<PieceHolder>)
    ensures |r| == |hs| && forall i :: 0 <= i < |hs| ==> r[i] == hs[i].(lastSeen := 0)
  {
    seq(|hs|, i requires 0 <= i < |hs| => hs[i].(lastSeen := 0))
  }

  lemma {:induction false} UntimedCount(hs: seq<PieceHolder>, node: NodeId)
    ensures CountOf(Untimed(hs), node) == CountOf(hs, node)
    ensures Has(Untimed(hs), node) <==> Has(hs, node)
  {
    if |hs| > 0 {
      UntimedCount(hs[1..], node);
      assert Untimed(hs)[1..] == Untimed(hs[1..]);
    }
  }

  lemma SameCount(a: seq<PieceHolder>, b: seq<PieceHolder>, node: NodeId)
    requires OnePerNode(a) && multiset(a) == multiset(b)
    ensures CountOf(b, node) == CountOf(a, node)
    ensures Has(b, node) <==> Has(a, node)
  {
    var id := (h: PieceHolder) => h.nodeId;
    assert DistinctBy(id, a);
    DistinctInAnyOrder(id, a, b);
    assert OnePerNode(b) by {
      forall i, j | 0 <= i < j < |b| ensures b[i].nodeId != b[j].nodeId { assert id(b[i]) != id(b[j]); }
    }
    HasInAnyOrder(a, b, node);
    HasInAnyOrder(b, a, node);
    if Has(a, node) {
      var i :| 0 <= i < |a| && a[i].nodeId == node;
      assert a[i] in multiset(b);
      var j :| 0 <= j < |b| && b[j] == a[i];
      CountAt(a, i);
      CountAt(b, j);
    } else {
      CountAbsent(a, node);
      CountAbsent(b, node);
    }
  }

  lemma HasInAnyOrder(a: seq<PieceHolder>, b: seq<PieceHolder>, node: NodeId)
    requires multiset(a) == multiset(b)
    ensures Has(a, node) ==> Has(b, node)
  {
    if Has(a, node) {
      var i :| 0 <= i < |a| && a[i].nodeId == node;
      assert a[i] in multiset(b);
      var j :| 0 <= j < |b| && b[j] == a[i];
    }
  }

  /** Records that agree up to their order and their times name the same able nodes. */
  lemma SameRecords(view: View, view': View, able: set<NodeId>)
    requires OnePerNode(view.holders) && multiset(Untimed(view.holders)) == multiset(Untimed(view'.holders))
    ensures Knows(view, able) <==> Knows(view', able)
  {
    forall m ensures CountOf(view.holders, m) == CountOf(view'.holders, m)
      ensures Has(view.holders, m) <==> Has(view'.holders, m)
    {
      UntimedCount(view.holders, m);
      UntimedCount(view'.holders, m);
      SameCount(Untimed(view.holders), Untimed(view'.holders), m);
    }
  }

  lemma {:induction false} UntimedTotal(hs: seq<PieceHolder>)
    ensures Total(Untimed(hs)) == Total(hs)
  {
    if |hs| > 0 {
      UntimedTotal(hs[1..]);
      assert Untimed(hs)[1..] == Untimed(hs[1..]);
    }
  }

  /** Taking out one record. */
  lemma {:induction false} TotalWithout(hs: seq<PieceHolder>, i: nat)
    requires i < |hs|
    ensures Total(hs) == hs[i].pieceCount + Total(hs[..i] + hs[i + 1..])
  {
    if i == 0 {
      assert hs[..i] + hs[i + 1..] == hs[1..];
    } else {
      TotalWithout(hs[1..], i - 1);
      assert (hs[..i] + hs[i + 1..])[1..] == hs[1..][..i - 1] + hs[1..][i..];
    }
  }

  lemma WithoutOne(a: seq<PieceHolder>, b: seq<PieceHolder>, i: nat)
    requires |a| > 0 && i < |b| && b[i] == a[0] && multiset(a) == multiset(b)
    ensures multiset(a[1..]) == multiset(b[..i] + b[i + 1..])
  {
    var x := a[0];
    assert a == [x] + a[1..] && b == b[..i] + [x] + b[i + 1..];
    assert multiset(a) == multiset{x} + multiset(a[1..]);
    assert multiset(b) == multiset(b[..i]) + multiset{x} + multiset(b[i + 1..]);
    assert multiset(b[..i] + b[i + 1..]) == multiset(b) - multiset{x};
    assert multiset(a[1..]) == multiset(a) - multiset{x};
  }

  lemma {:induction false} TotalInAnyOrder(a: seq<PieceHolder>, b: seq<PieceHolder>)
    requires multiset(a) == multiset(b)
    ensures Total(a) == Total(b)
    decreases |a|
  {
    if |a| == 0 {
      assert |multiset(b)| == |b|;
    } else {
      assert a[0] in multiset(b);
      var i :| 0 <= i < |b| && b[i] == a[0];
      WithoutOne(a, b, i);
      TotalInAnyOrder(a[1..], b[..i] + b[i + 1..]);
      TotalWithout(b, i);
    }
  }

  /** The node has these records of the content, up to their order and their times. */
  ghost predicate Heard(view: View, records: seq<PieceHolder>)
  {
    multiset(Untimed(records)) == multiset(Untimed(view.holders))
  }

  ghost predicate AllHeard(views: map<NodeId, View>, records: seq<PieceHolder>)
  {
    forall n :: n in views ==> Heard(views[n], records)
  }

  lemma SameTotal(view: View, records: seq<PieceHolder>)
    requires Heard(view, records)
    ensures Total(view.holders) == Total(records)
  {
    UntimedTotal(view.holders);
    UntimedTotal(records);
    TotalInAnyOrder(Untimed(records), Untimed(view.holders));
  }

  /** Each node's request is what its own scan makes of its own records. */
  ghost predicate Scanned(views: map<NodeId, View>, requests: map<NodeId, RepairRequest>, cid: Cid, k: nat)
  {
    forall n :: n in views ==>
      Judged(cid, Total(views[n].holders), k) == if n in requests then Some(requests[n]) else None
  }

  /** The pieces that are missing by these records. */
  ghost function Missing(records: seq<PieceHolder>, cid: Cid, k: nat): nat
  {
    var r := Judged(cid, Total(records), k);
    if r.Some? then Deficit(r.value) else 0
  }

  /** Nodes that have heard the same announcements of a content, and know the same k, agree on the able nodes and on
      how many pieces are missing. */
  lemma SameRequests(views: map<NodeId, View>, able: set<NodeId>, requests: map<NodeId, RepairRequest>,
                     records: seq<PieceHolder>, cid: Cid, k: nat)
    requires OnePerNode(records) && Knows(View(records, {}), able) && able <= views.Keys
    requires Scanned(views, requests, cid, k) && AllHeard(views, records)
    ensures Shared(views, able) && forall n :: n in views ==> Wanted(requests, n) == Missing(records, cid, k)
  {
    forall n | n in views ensures Knows(views[n], able) && Wanted(requests, n) == Missing(records, cid, k) {
      assert Heard(views[n], records);
      SameRecords(View(records, {}), views[n], able);
      SameTotal(views[n], records);
    }
  }

  /** Each able node sees those before it alive. */
  ghost predicate Sighted(views: map<NodeId, View>, able: set<NodeId>)
  {
    able <= views.Keys && forall n, m :: n in able && m in able && m < n ==> m in views[n].alive
  }

  lemma SightedAreInformed(views: map<NodeId, View>, able: set<NodeId>, requests: map<NodeId, RepairRequest>, d: nat)
    requires Sighted(views, able) && forall n :: n in able ==> Wanted(requests, n) == d
    ensures Informed(views, able, requests, d)
  {
    forall n | n in able
      ensures n in First(d, Listed(able)) <==> |SeenBefore(views[n], able, n)| < Wanted(requests, n)
    {
      assert SeenBefore(views[n], able, n) == Before(able, n);
      FirstIff(able, n, d);
    }
  }

  /** If moreover each able node sees those before it alive, they elect exactly the first of them, as many as pieces
      are missing. */
  lemma ElectionAgreement(views: map<NodeId, View>, able: set<NodeId>, requests: map<NodeId, RepairRequest>,
                          records: seq<PieceHolder>, cid: Cid, k: nat)
    requires OnePerNode(records) && Knows(View(records, {}), able) && Sighted(views, able)
    requires Scanned(views, requests, cid, k) && AllHeard(views, records)
    ensures var d := Missing(records, cid, k);
            && (forall n :: n in Elected(views, requests) <==> n in First(d, Listed(able)))
            && |Elected(views, requests)| == if |able| <= d then |able| else d
  {
    var d := Missing(records, cid, k);
    SameRequests(views, able, requests, records, cid, k);
    SightedAreInformed(views, able, requests, d);
    ElectionTheorem(views, able, requests, d);
  }

  lemma ElectedCount(views: map<NodeId, View>, able: set<NodeId>, requests: map<NodeId, RepairRequest>,
                     records: seq<PieceHolder>, cid: Cid, k: nat)
    requires OnePerNode(records) && Knows(View(records, {}), able) && Sighted(views, able)
    requires Scanned(views, requests, cid, k) && AllHeard(views, records)
    ensures var d := Missing(records, cid, k); |Elected(views, requests)| == if |able| <= d then |able| else d
  {
    ElectionAgreement(views, able, requests, records, cid, k);
  }

  /** With `healed` more pieces a content below its target is healthy, and one below k no longer critical, exactly if
      at least the deficit of nodes are able; and with fewer pieces it is not healthy. */
  ghost predicate HealsIff(cid: Cid, available: nat, k: nat, able: nat, healed: nat, fewer: nat)
    requires Judged(cid, available, k).Some?
  {
    var r, r' := Judged(cid, available, k).value, Judged(cid, available + healed, k);
    && (r.Normal? ==> (r'.None? <==> able >= Deficit(r)))
    && (r.Critical? ==> (r'.Some? && r'.value.Critical? <==> able < Deficit(r)))
    && (fewer < healed ==> Judged(cid, available + fewer, k).Some?)
  }

  lemma Healed(records: seq<PieceHolder>, cid: Cid, k: nat, available: nat, able: nat, healed: nat, fewer: nat)
    requires available == Total(records) && Judged(cid, available, k).Some?
    requires var d := Missing(records, cid, k); healed == if able <= d then able else d
    ensures HealsIff(cid, available, k, able, healed, fewer)
  {
    DeficitIsMissing(cid, available, k, healed);
    DeficitIsMissing(cid, available, k, fewer);
  }

  /** Such a round, in which every elected node adds a piece, heals exactly if enough nodes are able, and fewer
      repairers would not have done. */
  lemma RoundHeals(views: map<NodeId, View>, able: set<NodeId>, requests: map<NodeId, RepairRequest>,
                   records: seq<PieceHolder>, cid: Cid, k: nat, available: nat, fewer: nat)
    requires OnePerNode(records) && Knows(View(records, {}), able) && Sighted(views, able)
    requires Scanned(views, requests, cid, k) && AllHeard(views, records)
    requires available == Total(records) && Judged(cid, available, k).Some?
    ensures HealsIff(cid, available, k, |able|, |Elected(views, requests)|, fewer)
  {
    ElectedCount(views, able, requests, records, cid, k);
    Healed(records, cid, k, available, |able|, |Elected(views, requests)|, fewer);
  }
}
