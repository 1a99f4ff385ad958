/**
 The rotating health scan.

 The fraction scanned per cycle is an exact real here.
 */
module Scanner {
  import opened Wrappers
  import opened Arithmetic
  import opened Listings
  import opened PieceTracker
  import opened Redundancy

  const EPSILON: real := 1.0 / 4503599627370496.0

  datatype RepairRequest =
    | Critical(cid: Cid, available: nat, k: nat)
    | Normal(cid: Cid, available: nat, target: nat)

  // ----- one content -----

  /** What is wrong with a content that has `available` pieces. */
  function Judged(cid: Cid, available: nat, k: nat): (r: Option<RepairRequest>)
    ensures r.None? <==> available >= k && available >= TargetPieceCount(k)
    ensures r.Some? ==> r.value.cid == cid && r.value.available == available
    ensures r.Some? && r.value.Critical? <==> available < k
  {
    if available < k then Some(Critical(cid, available, k)) else
    if available < TargetPieceCount(k) then Some(Normal(cid, available, TargetPieceCount(k))) else None
  }

  /** The request asks for what is missing: with `extra` more pieces a Normal content is healthy, and a Critical one
      no longer critical, exactly if `extra` makes up the difference to what was asked for. */
  lemma AsksForMissing(cid: Cid, available: nat, k: nat, extra: nat)
    requires Judged(cid, available, k).Some?
    ensures var r, r' := Judged(cid, available, k).value, Judged(cid, available + extra, k);
            && (r.Normal? ==> (r'.None? <==> available + extra >= r.target))
            && (r.Critical? ==> (r'.Some? && r'.value.Critical? <==> available + extra < r.k))
            && (r.Normal? ==> available < r.target) && (r.Critical? ==> available < r.k)
  {
  }

  function KOf(ks: map<Cid, nat>, cid: Cid): nat
  {
    if cid in ks then ks[cid] else DEFAULT_K
  }

  /** The requests for a list of contents, in its order. */
  function Requests(avail: map<Cid, seq<PieceHolder>>, ks: map<Cid, nat>, cids: seq<Cid>): seq<RepairRequest>
  {
    if |cids| == 0 then [] else
      var n := |cids| - 1;
      var r := Judged(cids[n], Total(HoldersIn(avail, cids[n])), KOf(ks, cids[n]));
      Requests(avail, ks, cids[..n]) + if r.Some? then [r.value] else []
  }

  /** What a single content asks for; k is 32 unless recorded. */
  function Asked(avail: map<Cid, seq<PieceHolder>>, ks: map<Cid, nat>, cid: Cid): seq<RepairRequest>
  {
    var r := Judged(cid, Total(HoldersIn(avail, cid)), if cid in ks then ks[cid] else 32);
    if r.Some? then [r.value] else []
  }

  function FlatMap<A, B>(f: A -> seq<B>, s: seq<A>): seq<B>
  {
    if |s| == 0 then [] else f(s[0]) + FlatMap(f, s[1..])
  }

  lemma {:induction false} FlatMapLast<A, B>(f: A -> seq<B>, s: seq<A>)
    requires |s| > 0
    ensures FlatMap(f, s) == FlatMap(f, s[..|s| - 1]) + f(s[|s| - 1])
  {
    if |s| > 1 {
      FlatMapLast(f, s[1..]);
      assert s[1..][..|s| - 2] == s[..|s| - 1][1..];
    }
  }

  /** The requests of a list are those of its contents, one after another. */
  lemma {:induction false} RequestsAreAsked(avail: map<Cid, seq<PieceHolder>>, ks: map<Cid, nat>, cids: seq<Cid>)
    ensures Requests(avail, ks, cids) == FlatMap(c => Asked(avail, ks, c), cids)
  {
    if |cids| > 0 {
      RequestsAreAsked(avail, ks, cids[..|cids| - 1]);
      FlatMapLast(c => Asked(avail, ks, c), cids);
    }
  }

  // ----- the window of a cycle -----

  function BatchSize(total: nat, percent: real): nat
  {
    var n := Ceil(total as real * percent);
    if n < 1 then 1 else n
  }

  /** The list read around its end. */
  function At(list: seq<Cid>, x: nat): Cid
    requires |list| > 0
  {
    list[x % |list|]
  }

  /** `n` consecutive entries of the list, taken around its end. */
  function Window(list: seq<Cid>, start: nat, n: nat): (w: seq<Cid>)
    requires |list| > 0
    ensures |w| == n && forall i :: 0 <= i < n ==> w[i] == At(list, start + i)
  {
    seq<Cid>(n, i requires 0 <= i < n => At(list, start + i))
  }

  lemma BatchFits(total: nat, percent: real)
    requires total > 0 && 0.0 < percent <= 1.0
    ensures 1 <= BatchSize(total, percent) <= total
    ensures BatchSize(total, percent) as real >= total as real * percent
  {
    var x := total as real * percent;
    Sign(1.0 - percent, total as real);
    assert x <= total as real;
  }

  /** No smaller batch of at least one covers the percentage. */
  lemma SmallestBatch(total: nat, percent: real, b: nat)
    requires 1 <= b && b as real >= total as real * percent
    ensures BatchSize(total, percent) <= b
  {
    var x := total as real * percent;
    assert Ceil(x) as real < x + 1.0;
  }

  /** The slice up to the end and the wrapped slice together are the window. */
  lemma SlicesAreWindow(list: seq<Cid>, start: nat, n: nat)
    requires start < |list| && 1 <= n <= |list|
    ensures Sliced(list, start, n) == Window(list, start, n)
  {
    forall i | 0 <= i < n ensures Sliced(list, start, n)[i] == At(list, start + i) { Around(start + i, |list|); }
  }

  lemma Around(x: nat, n: nat)
    requires x < 2 * n
    ensures x % n == if x < n then x else x - n
  {
  }

  function Sliced(list: seq<Cid>, start: nat, n: nat): (s: seq<Cid>)
    requires start < |list| && 1 <= n <= |list|
    ensures |s| == n
  {
    if start + n <= |list| then list[start..start + n] else list[start..] + list[..start + n - |list|]
  }

  /** Windows that follow each other are one longer window. */
  lemma WindowsJoin(list: seq<Cid>, start: nat, a: nat, b: nat)
    requires |list| > 0
    ensures Window(list, start, a) + Window(list, (start + a) % |list|, b) == Window(list, start, a + b)
  {
    var next := (start + a) % |list|;
    var joined := Window(list, start, a) + Window(list, next, b);
    forall i | 0 <= i < a + b ensures joined[i] == At(list, start + i) {
      if i >= a { AtShift(list, start + a, i - a); }
    }
  }

  lemma AtShift(list: seq<Cid>, x: nat, i: nat)
    requires |list| > 0
    ensures At(list, x % |list| + i) == At(list, x + i)
  {
    ModShift(x, i, |list|);
  }

  lemma ModShift(x: nat, i: nat, n: nat)
    requires n > 0
    ensures (x % n + i) % n == (x + i) % n
  {
    var q, r := (x % n + i) / n, (x % n + i) % n;
    assert x + i == (x / n + q) * n + r;
    DivUnique(x + i, n, x / n + q, r);
  }

  // ----- fairness -----

  /** How many of the numbers from `start` on, `m` of them, are `i` modulo `n`. */
  function Visits(i: nat, start: nat, m: nat, n: nat): nat
    requires n > 0
  {
    if m == 0 then 0 else Visits(i, start, m - 1, n) + if (start + m - 1) % n == i then 1 else 0
  }

  lemma {:induction false} VisitsClosed(i: nat, start: nat, m: nat, n: nat)
    requires i < n
    ensures Visits(i, start, m, n) == (start + m + n - 1 - i) / n - (start + n - 1 - i) / n
  {
    if m > 0 {
      VisitsClosed(i, start, m - 1, n);
      var x := start + m - 1;
      DivStep(x + n - 1 - i, n);
      SameResidue(x, i, n);
    }
  }

  lemma SameResidue(x: nat, i: nat, n: nat)
    requires i < n
    ensures (x + n - i) % n == 0 <==> x % n == i
  {
    var q, r := x / n, x % n;
    if r >= i {
      assert x + n - i == (q + 1) * n + (r - i);
      DivUnique(x + n - i, n, q + 1, r - i);
    } else {
      assert x + n - i == q * n + (r + n - i);
      DivUnique(x + n - i, n, q, r + n - i);
    }
  }

  lemma VisitsBounds(i: nat, start: nat, m: nat, n: nat)
    requires i < n
    ensures m / n <= Visits(i, start, m, n) <= (m + n - 1) / n
  {
    VisitsClosed(i, start, m, n);
    DivAdd(start + n - 1 - i, m, n);
  }

  ghost predicate Distinct(list: seq<Cid>)
  {
    forall i, j :: 0 <= i < j < |list| ==> list[i] != list[j]
  }

  lemma {:induction false} WindowCount(list: seq<Cid>, start: nat, m: nat, i: nat)
    requires Distinct(list) && i < |list|
    ensures multiset(Window(list, start, m))[list[i]] == Visits(i, start, m, |list|)
  {
    if m > 0 {
      WindowCount(list, start, m - 1, i);
      var w := Window(list, start, m);
      assert w == Window(list, start, m - 1) + [w[m - 1]];
      var j := (start + (m - 1)) % |list|;
      assert w[m - 1] == At(list, start + (m - 1)) == list[j];
      assert list[j] == list[i] <==> j == i;
    }
  }

  /** Every entry of the list occurs in the window as often as any other, up to one. */
  lemma WindowFair(list: seq<Cid>, start: nat, m: nat, c: Cid)
    requires Distinct(list) && c in list
    ensures m / |list| <= multiset(Window(list, start, m))[c] <= (m + |list| - 1) / |list|
  {
    var i :| 0 <= i < |list| && list[i] == c;
    WindowCount(list, start, m, i);
    VisitsBounds(i, start, m, |list|);
  }

  // ----- the scanner -----

  method TakeWindow(cids: seq<Cid>, start: nat, batchSize: nat) returns (w: seq<Cid>)
    requires start < |cids| && 1 <= batchSize <= |cids|
    ensures w == Window(cids, start, batchSize)
  {
    var total := |cids|;
    var end := if start + batchSize <= total then start + batchSize else total;
    var batch := cids[start..end];
    var wrapped := if start + batchSize > total then cids[..start + batchSize - total] else [];
    SlicesAreWindow(cids, start, batchSize);
    w := batch + wrapped;
  }

  ghost predicate Eligible(avail: map<Cid, seq<PieceHolder>>, node: NodeId, cid: Cid)
  {
    cid in avail && CountOf(avail[cid], node) >= 2
  }

  /** The contents of which this node holds two pieces or more, in order. */
  ghost function EligibleCids(avail: map<Cid, seq<PieceHolder>>, node: NodeId): (cids: seq<Cid>)
    ensures Distinct(cids) && forall c :: c in cids <==> Eligible(avail, node, c)
  {
    Listed(set c | c in avail && Eligible(avail, node, c))
  }

  class HealthScanner {
    const tracker: PieceTracker
    const nodeId: NodeId
    const scanPercent: real
    var cursor: nat

    ghost predicate Valid()
      reads this
    {
      0.0 < scanPercent <= 1.0
    }

    constructor (tracker: PieceTracker, nodeId: NodeId, percent: real)
      ensures Valid() && this.tracker == tracker && this.nodeId == nodeId && cursor == 0
      ensures EPSILON <= percent <= 1.0 ==> scanPercent == percent
      ensures (percent < EPSILON ==> scanPercent == EPSILON) && (percent > 1.0 ==> scanPercent == 1.0)
    {
      this.tracker := tracker;
      this.nodeId := nodeId;
      scanPercent := if percent < EPSILON then EPSILON else if percent > 1.0 then 1.0 else percent;
      cursor := 0;
    }

    method EvaluateCid(cid: Cid) returns (r: Option<RepairRequest>)
      ensures r == Judged(cid, Total(HoldersIn(tracker.availability, cid)), KOf(tracker.kValues, cid))
    {
      var available := tracker.AvailableCount(cid);
      var k := if cid in tracker.kValues then tracker.kValues[cid] else DEFAULT_K;
      var target := TargetPieceCount(k);
      if available < k {
        return Some(Critical(cid, available, k));
      } else if available < target {
        return Some(Normal(cid, available, target));
      } else {
        return None;
      }
    }

    method FindEligible() returns (cids: seq<Cid>)
      ensures cids == EligibleCids(tracker.availability, nodeId)
    {
      var all := tracker.SortedCids();
      cids := [];
      for i := 0 to |all|
        invariant forall a, b :: 0 <= a < b < |cids| ==> cids[a] < cids[b]
        invariant forall c :: c in cids <==> c in all[..i] && Eligible(tracker.availability, nodeId, c)
      {
        var n := tracker.LocalPieceCount(all[i], nodeId);
        assert all[..i + 1] == all[..i] + [all[i]];
        forall a | 0 <= a < |cids| ensures cids[a] < all[i] {
          assert cids[a] in all[..i];
        }
        if n >= 2 {
          cids := cids + [all[i]];
        }
      }
      ghost var s := set c | c in tracker.availability && Eligible(tracker.availability, nodeId, c);
      assert all[..|all|] == all;
      ListingUnique(cids, Listed(s), s);
    }

    /** One cycle judges exactly the next window of the eligible contents and moves the cursor past it. */
    method ScanCycle() returns (repairs: seq<RepairRequest>, ghost evaluated: seq<Cid>)
      requires Valid()
      modifies this`cursor
      ensures repairs == Requests(tracker.availability, tracker.kValues, evaluated)
      ensures var cids := EligibleCids(tracker.availability, nodeId);
        if cids == [] then evaluated == [] && cursor == old(cursor) else
          && evaluated == Window(cids, old(cursor) % |cids|, BatchSize(|cids|, scanPercent))
          && cursor == (old(cursor) % |cids| + BatchSize(|cids|, scanPercent)) % |cids|
    {
      var cids := FindEligible();
      if cids == [] {
        return [], [];
      }
      var total := |cids|;
      var batchSize := BatchSize(total, scanPercent);
      BatchFits(total, scanPercent);
      var start := cursor % total;
      cursor := (start + batchSize) % total;
      var window := TakeWindow(cids, start, batchSize);
      evaluated := window;
      repairs := EvaluateAll(window);
    }

    method EvaluateAll(cids: seq<Cid>) returns (repairs: seq<RepairRequest>)
      ensures repairs == Requests(tracker.availability, tracker.kValues, cids)
    {
      repairs := [];
      for i := 0 to |cids|
        invariant repairs == Requests(tracker.availability, tracker.kValues, cids[..i])
      {
        var r := EvaluateCid(cids[i]);
        assert cids[..i + 1][..i] == cids[..i];
        if r.Some? {
          repairs := repairs + [r.value];
        }
      }
      assert cids[..|cids|] == cids;
    }

    /** Each cycle takes up where the last one left off. */
    method JoinCycles(n: nat) returns (ghost log: seq<Cid>)
      requires Valid() && EligibleCids(tracker.availability, nodeId) != []
      modifies this`cursor
      ensures var cids := EligibleCids(tracker.availability, nodeId);
        log == Window(cids, old(cursor) % |cids|, Steps(n, BatchSize(|cids|, scanPercent)))
    {
      ghost var cids := EligibleCids(tracker.availability, nodeId);
      ghost var b, start := BatchSize(|cids|, scanPercent), cursor % |cids|;
      log := [];
      JoinStart(cids, cursor);
      for i := 0 to n
        invariant Joined(log, cids, start, Steps(i, b), cursor)
      {
        ghost var was := cursor;
        var _, evaluated := ScanCycle();
        JoinNext(log, cids, start, Steps(i, b), was, evaluated, b, cursor);
        log := log + evaluated;
      }
    }

    /**
     While the eligible contents stay the same, `n` cycles from any cursor judge one
     window of `n` batches, which is fair to each of them.
     */
    method RunCycles(n: nat) returns (ghost log: seq<Cid>)
      requires Valid() && EligibleCids(tracker.availability, nodeId) != []
      modifies this`cursor
      ensures var cids := EligibleCids(tracker.availability, nodeId);
        log == Window(cids, old(cursor) % |cids|, Steps(n, BatchSize(|cids|, scanPercent)))
      ensures Fair(log, EligibleCids(tracker.availability, nodeId), scanPercent, n)
    {
      ghost var cids, start := EligibleCids(tracker.availability, nodeId), cursor;
      log := JoinCycles(n);
      ScanFairness(cids, start % |cids|, scanPercent, n);
    }
  }

  /** `n` batches of `b`. */
  function Steps(n: nat, b: nat): nat
  {
    if n == 0 then 0 else Steps(n - 1, b) + b
  }

  lemma {:induction false} StepsTotal(n: nat, b: nat)
    ensures Steps(n, b) == n * b
  {
    if n > 0 {
      StepsTotal(n - 1, b);
      assert n * b == (n - 1) * b + b;
    }
  }

  /** What was judged so far is one window, and the cursor stands at its end. */
  ghost predicate Joined(log: seq<Cid>, list: seq<Cid>, start: nat, done: nat, cursor: nat)
    requires |list| > 0
  {
    log == Window(list, start, done) && cursor % |list| == (start + done) % |list|
  }

  lemma JoinStart(list: seq<Cid>, cursor: nat)
    requires |list| > 0
    ensures Joined([], list, cursor % |list|, 0, cursor)
  {
    ModShift(cursor, 0, |list|);
  }

  lemma JoinNext(log: seq<Cid>, list: seq<Cid>, start: nat, done: nat, cursor: nat, w: seq<Cid>, b: nat, next: nat)
    requires |list| > 0 && Joined(log, list, start, done, cursor)
    requires w == Window(list, cursor % |list|, b) && next == (cursor % |list| + b) % |list|
    ensures Joined(log + w, list, start, done + b, next)
  {
    WindowsJoin(list, start, done, b);
    ModShift(start + done, b, |list|);
    ModShift(start + done + b, 0, |list|);
  }

  /**
   Each content was judged between `n * batch / total` rounded down and rounded up
   times; and if the cycles cover the whole, as a hundred do at one in a hundred, none
   was missed.
   */
  ghost predicate Fair(log: seq<Cid>, cids: seq<Cid>, percent: real, n: nat)
    requires |cids| > 0
  {
    var steps, total := n * BatchSize(|cids|, percent), |cids|;
    forall c :: c in cids ==>
      && steps / total <= multiset(log)[c] <= (steps + total - 1) / total
      && (n as real * percent >= 1.0 ==> multiset(log)[c] >= 1)
  }

  /** The windows of `n` cycles are fair, from any cursor. */
  lemma ScanFairness(cids: seq<Cid>, start: nat, percent: real, n: nat)
    requires Distinct(cids) && |cids| > 0 && 0.0 < percent <= 1.0
    ensures Fair(Window(cids, start, Steps(n, BatchSize(|cids|, percent))), cids, percent, n)
  {
    StepsTotal(n, BatchSize(|cids|, percent));
    if n as real * percent >= 1.0 { FullCoverage(|cids|, percent, n); }
    forall c | c in cids { WindowFair(cids, start, n * BatchSize(|cids|, percent), c); }
  }

  lemma FullCoverage(total: nat, percent: real, n: nat)
    requires total > 0 && 0.0 < percent <= 1.0 && n as real * percent >= 1.0
    ensures n * BatchSize(total, percent) / total >= 1
  {
    var b := BatchSize(total, percent);
    BatchFits(total, percent);
    ProductAsReal(b, n);
    Covered(n as real, b as real, total as real, percent);
    assert b * n >= total;
    DivAdd(b * n - total, total, total);
  }

  lemma Covered(n: real, b: real, total: real, percent: real)
    requires b >= total * percent && n * percent >= 1.0 && total > 0.0 && n >= 0.0
    ensures b * n >= total
  {
  }
}
