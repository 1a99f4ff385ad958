/**
 The history of one node's record of one other node: death and suspicion over whole runs.
 Ticks are atomic here; `now` is the monotonic clock.
 */
module SwimLocal {
  import opened Swim
  import opened Wrappers

  datatype Event =
    | Live(msg: Message, now: nat)
    | Gossiped(msg: Message, now: nat)
    | Tick(now: nat)
    | ProbeFailed(target: NodeId, inc: nat, now: nat)

  function Apply(n: Node, e: Event, timeout: nat): Node
  {
    match e
    case Live(msg, now) => HandledLive(n, msg, now).0
    case Gossiped(msg, now) => Handled(n, msg, now).0
    case Tick(now) => AfterTick(n, now, timeout)
    case ProbeFailed(x, inc, now) => AfterSuspect(n, x, inc, now)
  }

  ghost predicate IsHistory(states: seq<Node>, events: seq<Event>, timeout: nat)
  {
    && |states| == |events| + 1
    && forall i :: 0 <= i < |events| ==> states[i + 1] == Apply(states[i], events[i], timeout)
  }

  // ----- dead is absorbing up to revival -----

  /** The message claims, directly or piggybacked, that x is alive above incarnation i. */
  ghost predicate ClaimsAlive(msg: Message, x: NodeId, i: nat)
  {
    match msg
    case AliveMsg(y, j) => y == x && j > i
    case AckMsg(y, _, j) => y == x && j > i
    case PingMsg(_, _, piggyback) => exists k :: 0 <= k < |piggyback| && ClaimsAlive(piggyback[k], x, i)
    case _ => false
  }

  ghost predicate EventClaimsAlive(e: Event, x: NodeId, i: nat)
  {
    (e.Live? || e.Gossiped?) && ClaimsAlive(e.msg, x, i)
  }

  ghost predicate DeadFrom(n: Node, x: NodeId, i: nat)
  {
    x in n.members && n.members[x].Dead? && n.members[x].incarnation >= i && x != n.id
  }

  lemma {:induction false} HandledStaysDead(n: Node, msg: Message, now: nat, x: NodeId, i: nat, j: nat)
    requires i <= j && DeadFrom(n, x, j) && !ClaimsAlive(msg, x, i)
    ensures DeadFrom(Handled(n, msg, now).0, x, j)
    decreases msg, 1
  {
    if msg.PingMsg? {
      forall k | 0 <= k < |msg.piggyback| ensures !ClaimsAlive(msg.piggyback[k], x, i) {
        assert ClaimsAlive(msg.piggyback[k], x, i) ==> ClaimsAlive(msg, x, i);
      }
      HandledAllStaysDead(n, msg.piggyback, now, x, i, j);
    }
  }

  lemma {:induction false} HandledAllStaysDead(n: Node, msgs: seq<Message>, now: nat, x: NodeId, i: nat, j: nat)
    requires i <= j && DeadFrom(n, x, j) && forall k :: 0 <= k < |msgs| ==> !ClaimsAlive(msgs[k], x, i)
    ensures DeadFrom(HandledAll(n, msgs, now).0, x, j)
    decreases msgs, 0
  {
    if |msgs| > 0 {
      var k := |msgs| - 1;
      HandledAllStaysDead(n, msgs[..k], now, x, i, j);
      HandledStaysDead(HandledAll(n, msgs[..k], now).0, msgs[k], now, x, i, j);
    }
  }

  lemma EventStaysDead(n: Node, e: Event, timeout: nat, x: NodeId, i: nat, j: nat)
    requires i <= j && DeadFrom(n, x, j) && !EventClaimsAlive(e, x, i)
    ensures DeadFrom(Apply(n, e, timeout), x, j)
  {
    match e
    case Live(msg, now) =>
      if msg.PingMsg? {
        forall k | 0 <= k < |msg.piggyback| ensures !ClaimsAlive(msg.piggyback[k], x, i) {
          assert ClaimsAlive(msg.piggyback[k], x, i) ==> ClaimsAlive(msg, x, i);
        }
        HandledAllStaysDead(AfterAlive(n, msg.sender, 0), msg.piggyback, now, x, i, j);
      } else {
        HandledStaysDead(n, msg, now, x, i, j);
      }
    case Gossiped(msg, now) =>
      HandledStaysDead(n, msg, now, x, i, j);
    case Tick(now) =>
    case ProbeFailed(_, _, _) =>
  }

  /** Once dead at incarnation i, a record stays dead, at an incarnation that never falls, until some message claims
      the node alive above i.  Joins and pings claim incarnation zero and revive nothing. */
  lemma {:induction false} DeadIsAbsorbing(states: seq<Node>, events: seq<Event>, timeout: nat, a: nat, b: nat,
                                          x: NodeId, i: nat)
    requires IsHistory(states, events, timeout) && a <= b <= |events|
    requires x in states[a].members && states[a].members[x] == Dead(i) && x != states[a].id
    requires forall k :: a <= k < b ==> !EventClaimsAlive(events[k], x, i)
    ensures DeadFrom(states[b], x, i)
    ensures b > a ==> DeadFrom(states[b - 1], x, i) && DeadFrom(states[b], x, states[b - 1].members[x].incarnation)
    decreases b
  {
    if a < b {
      DeadIsAbsorbing(states, events, timeout, a, b - 1, x, i);
      var n := states[b - 1];
      assert states[b - 1 + 1] == Apply(n, events[b - 1], timeout);
      EventStaysDead(n, events[b - 1], timeout, x, i, n.members[x].incarnation);
    }
  }

  // ----- claims, and the records they replace -----

  datatype Claim = IsAlive(inc: nat) | IsSuspect(inc: nat) | IsDead(inc: nat)

  /** The message, handled as gossip, claims c of x, directly or piggybacked. */
  ghost predicate Says(msg: Message, x: NodeId, c: Claim)
  {
    match msg
    case JoinMsg(y) => y == x && c == IsAlive(0)
    case AliveMsg(y, j) => y == x && c == IsAlive(j)
    case SuspectMsg(y, j, _) => y == x && c == IsSuspect(j)
    case DeadMsg(y, j, _) => y == x && c == IsDead(j)
    case PingMsg(_, _, piggyback) => exists k :: 0 <= k < |piggyback| && Says(piggyback[k], x, c)
    case AckMsg(y, _, j) => y == x && c == IsAlive(j)
    case OtherMsg => false
  }

  /** A live ping also claims its sender alive at zero; a failed probe claims its target suspect. */
  ghost predicate EventSays(e: Event, x: NodeId, c: Claim)
  {
    match e
    case Live(msg, _) => Says(msg, x, c) || (msg.PingMsg? && msg.sender == x && c == IsAlive(0))
    case Gossiped(msg, _) => Says(msg, x, c)
    case Tick(_) => false
    case ProbeFailed(y, inc, _) => y == x && c == IsSuspect(inc)
  }

  function Record(n: Node, x: NodeId): Option<MemberState>
  {
    if x in n.members then Some(n.members[x]) else None
  }

  function Recorded(c: Claim, now: nat): MemberState
  {
    match c
    case IsAlive(j) => Alive(j)
    case IsSuspect(j) => Suspect(j, now)
    case IsDead(j) => Dead(j)
  }

  /** A newer claim replaces a record, but no suspicion replaces a death.  At the same incarnation life and suspicion
      replace each other.  Death replaces everything but a death as new. */
  predicate Replaces(c: Claim, r: Option<MemberState>)
  {
    || r.None?
    || (c.inc > r.value.incarnation && !(c.IsSuspect? && r.value.Dead?))
    || (c.inc == r.value.incarnation && ((c.IsAlive? && r.value.Suspect?) || (c.IsSuspect? && r.value.Alive?)))
    || (c.IsDead? && !r.value.Dead?)
  }

  function Taken(r: Option<MemberState>, c: Claim, now: nat): Option<MemberState>
  {
    if Replaces(c, r) then Some(Recorded(c, now)) else r
  }

  lemma MarksTake(n: Node, x: NodeId, inc: nat, now: nat)
    requires x != n.id
    ensures Record(AfterAlive(n, x, inc), x) == Taken(Record(n, x), IsAlive(inc), now)
    ensures Record(AfterSuspect(n, x, inc, now), x) == Taken(Record(n, x), IsSuspect(inc), now)
    ensures Record(AfterDead(n, x, inc), x) == Taken(Record(n, x), IsDead(inc), now)
  {
  }

  /** A message that is not a ping, or a failed probe, makes at most one claim about x, and the record is replaced
      exactly if the claim replaces it. */
  lemma PlainClaimTakes(n: Node, e: Event, timeout: nat, x: NodeId, c: Claim)
    requires x != n.id && EventSays(e, x, c) && !((e.Live? || e.Gossiped?) && e.msg.PingMsg?)
    ensures Record(Apply(n, e, timeout), x) == Taken(Record(n, x), c, e.now)
    ensures forall c' :: EventSays(e, x, c') ==> c' == c
  {
    MarksTake(n, x, c.inc, e.now);
  }

  // ----- how long a record lasts -----

  /** The claim turns no good record into a bad one. */
  ghost predicate Harmless(good: MemberState -> bool, c: Claim, now: nat)
  {
    forall r :: good(r) ==> good(Taken(Some(r), c, now).value)
  }

  ghost predicate Holds(n: Node, x: NodeId, good: MemberState -> bool)
  {
    x != n.id && x in n.members && good(n.members[x])
  }

  lemma {:induction false} HandledKeeps(n: Node, msg: Message, now: nat, x: NodeId, good: MemberState -> bool)
    requires Holds(n, x, good) && forall c :: Says(msg, x, c) ==> Harmless(good, c, now)
    ensures Holds(Handled(n, msg, now).0, x, good)
    decreases msg, 1
  {
    match msg
    case PingMsg(_, _, piggyback) =>
      forall k, c | 0 <= k < |piggyback| && Says(piggyback[k], x, c) ensures Harmless(good, c, now) {
        assert Says(msg, x, c);
      }
      HandledAllKeeps(n, piggyback, now, x, good);
    case JoinMsg(y) => MarkKeeps(n, msg, y, IsAlive(0), now, x, good);
    case AliveMsg(y, j) => MarkKeeps(n, msg, y, IsAlive(j), now, x, good);
    case SuspectMsg(y, j, _) => MarkKeeps(n, msg, y, IsSuspect(j), now, x, good);
    case DeadMsg(y, j, _) => MarkKeeps(n, msg, y, IsDead(j), now, x, good);
    case AckMsg(y, _, j) => MarkKeeps(n, msg, y, IsAlive(j), now, x, good);
    case OtherMsg =>
  }

  lemma MarkKeeps(n: Node, msg: Message, y: NodeId, c: Claim, now: nat, x: NodeId, good: MemberState -> bool)
    requires Holds(n, x, good) && !msg.PingMsg? && !msg.OtherMsg? && Says(msg, y, c)
    requires y == x ==> Harmless(good, c, now)
    ensures Holds(Handled(n, msg, now).0, x, good)
  {
    if y == x { MarksTake(n, x, c.inc, now); }
  }

  lemma {:induction false} HandledAllKeeps(n: Node, msgs: seq<Message>, now: nat, x: NodeId, good: MemberState -> bool)
    requires Holds(n, x, good) && forall k, c :: 0 <= k < |msgs| && Says(msgs[k], x, c) ==> Harmless(good, c, now)
    ensures Holds(HandledAll(n, msgs, now).0, x, good)
    decreases msgs, 0
  {
    if |msgs| > 0 {
      var k := |msgs| - 1;
      HandledAllKeeps(n, msgs[..k], now, x, good);
      HandledKeeps(HandledAll(n, msgs[..k], now).0, msgs[k], now, x, good);
    }
  }

  lemma EventKeeps(n: Node, e: Event, timeout: nat, x: NodeId, good: MemberState -> bool)
    requires Holds(n, x, good) && forall c :: EventSays(e, x, c) ==> Harmless(good, c, e.now)
    requires e.Tick? ==> !Expired(n.members[x], e.now, timeout)
    ensures Holds(Apply(n, e, timeout), x, good)
  {
    match e
    case Live(msg, now) =>
      forall c | Says(msg, x, c) ensures Harmless(good, c, now) { assert EventSays(e, x, c); }
      if msg.PingMsg? {
        LivePingKeeps(n, e, x, good);
      } else {
        HandledKeeps(n, msg, now, x, good);
      }
    case Gossiped(msg, now) =>
      forall c | Says(msg, x, c) ensures Harmless(good, c, now) { assert EventSays(e, x, c); }
      HandledKeeps(n, msg, now, x, good);
    case Tick(_) =>
    case ProbeFailed(y, inc, now) =>
      if y == x {
        assert EventSays(e, x, IsSuspect(inc));
        MarksTake(n, x, inc, now);
      }
  }

  lemma LivePingKeeps(n: Node, e: Event, x: NodeId, good: MemberState -> bool)
    requires Holds(n, x, good) && e.Live? && e.msg.PingMsg?
    requires forall c :: EventSays(e, x, c) ==> Harmless(good, c, e.now)
    ensures Holds(HandledLive(n, e.msg, e.now).0, x, good)
  {
    var msg := e.msg;
    forall k, c | 0 <= k < |msg.piggyback| && Says(msg.piggyback[k], x, c) ensures Harmless(good, c, e.now) {
      assert Says(msg, x, c);
      assert EventSays(e, x, c);
    }
    if msg.sender == x {
      assert EventSays(e, x, IsAlive(0));
      MarksTake(n, x, 0, e.now);
    }
    HandledAllKeeps(AfterAlive(n, msg.sender, 0), msg.piggyback, e.now, x, good);
  }

  ghost predicate AliveFrom(n: Node, x: NodeId, i: nat)
  {
    x != n.id && x in n.members && n.members[x].Alive? && n.members[x].incarnation >= i
  }

  /** The event claims x dead, or suspect at i or above. */
  ghost predicate Disputes(e: Event, x: NodeId, i: nat)
  {
    exists c :: EventSays(e, x, c) && (c.IsDead? || (c.IsSuspect? && c.inc >= i))
  }

  /** Once alive at incarnation i, a record stays alive, at an incarnation that never falls, until something claims the
      node dead, or suspect at i or above.  Late suspicions, however many and however nested, change nothing. */
  lemma {:induction false} AliveLasts(states: seq<Node>, events: seq<Event>, timeout: nat, a: nat, b: nat,
                                     x: NodeId, i: nat)
    requires IsHistory(states, events, timeout) && a <= b <= |events|
    requires x in states[a].members && states[a].members[x] == Alive(i) && x != states[a].id
    requires forall k :: a <= k < b ==> !Disputes(events[k], x, i)
    ensures AliveFrom(states[b], x, i)
    ensures b > a ==> AliveFrom(states[b - 1], x, i) && AliveFrom(states[b], x, states[b - 1].members[x].incarnation)
    decreases b
  {
    if a < b {
      AliveLasts(states, events, timeout, a, b - 1, x, i);
      assert states[b - 1 + 1] == Apply(states[b - 1], events[b - 1], timeout);
      EventStaysAlive(states[b - 1], events[b - 1], timeout, x, i, states[b - 1].members[x].incarnation);
    }
  }

  lemma EventStaysAlive(n: Node, e: Event, timeout: nat, x: NodeId, i: nat, j: nat)
    requires i <= j && AliveFrom(n, x, j) && !Disputes(e, x, i)
    ensures AliveFrom(Apply(n, e, timeout), x, j)
  {
    var good := (r: MemberState) => r.Alive? && r.incarnation >= j;
    forall c | EventSays(e, x, c) ensures Harmless(good, c, e.now) {
      assert !c.IsDead? && !(c.IsSuspect? && c.inc >= i);
    }
    EventKeeps(n, e, timeout, x, good);
  }

  /** The event claims x dead, alive at i or above, or suspect above i; or it is a tick at which m has expired. */
  ghost predicate Settles(e: Event, x: NodeId, m: MemberState, timeout: nat)
  {
    || (e.Tick? && Expired(m, e.now, timeout))
    || exists c :: EventSays(e, x, c) && (c.IsDead? || c.inc > m.incarnation || (c.IsAlive? && c.inc == m.incarnation))
  }

  /** A suspicion stays the very record it is until something settles it. */
  lemma {:induction false} SuspicionLasts(states: seq<Node>, events: seq<Event>, timeout: nat, a: nat, b: nat,
                                         x: NodeId, m: MemberState)
    requires IsHistory(states, events, timeout) && a <= b <= |events| && m.Suspect?
    requires x in states[a].members && states[a].members[x] == m && x != states[a].id
    requires forall k :: a <= k < b ==> !Settles(events[k], x, m, timeout)
    ensures x in states[b].members && states[b].members[x] == m && x != states[b].id
    decreases b
  {
    if a < b {
      SuspicionLasts(states, events, timeout, a, b - 1, x, m);
      assert states[b - 1 + 1] == Apply(states[b - 1], events[b - 1], timeout);
      var e, good := events[b - 1], (r: MemberState) => r == m;
      forall c | EventSays(e, x, c) ensures Harmless(good, c, e.now) {
        assert !(c.IsDead? || c.inc > m.incarnation || (c.IsAlive? && c.inc == m.incarnation));
      }
      EventKeeps(states[b - 1], e, timeout, x, good);
    }
  }

  // ----- what gossip, probes and replies say -----

  /** The live handler answers pings and joins and nothing else: a ping by an ack with its nonce, a join by a claim of
      life, both by the node for itself at the counter the message leaves. */
  lemma LiveReplyIff(n: Node, msg: Message, now: nat)
    ensures var r := HandledLive(n, msg, now);
            && (r.1.Some? <==> msg.PingMsg? || msg.JoinMsg?)
            && (msg.PingMsg? ==> r.1 == Some(AckMsg(n.id, msg.nonce, r.0.incarnation)))
            && (msg.JoinMsg? ==> r.1 == Some(AliveMsg(n.id, r.0.incarnation)))
  {
    LiveCounterRisesIff(n, msg, now);
  }

  /** Gossip carries records over: a node without a record of x takes the sender's, a suspicion counting from now. */
  lemma GossipTransfers(n: Node, x: NodeId, m: Node, now: nat)
    requires x in n.members && x !in m.members && x != m.id
    ensures var r := Record(Handled(m, Gossip(n, x), now).0, x);
            r == Some(if n.members[x].Suspect? then n.members[x].(since := now) else n.members[x])
  {
  }

  /** A probe that fails while the target is held alive leaves it suspect at that incarnation. */
  lemma FailedProbeSuspects(n: Node, x: NodeId, now: nat, timeout: nat)
    requires x != n.id
    ensures var r := Record(Apply(n, ProbeFailed(x, LastKnown(n, x), now), timeout), x);
            && (x !in n.members ==> r == Some(Suspect(0, now)))
            && (x in n.members && n.members[x].Alive? ==> r == Some(Suspect(n.members[x].incarnation, now)))
            && (x in n.members && !n.members[x].Alive? ==> r == Some(n.members[x]))
  {
  }

  /** Where gossip is cut short, a live member is left out only if none but live ones are in, and a suspect one only
      if none that are dead are in. */
  lemma LiveGossipFirst(n: Node, order: seq<NodeId>, limit: nat, msgs: seq<Message>, x: NodeId, i: nat)
    requires GossipOf(n, order, limit, msgs) && x in n.members && i < |msgs|
    requires forall j :: 0 <= j < |msgs| ==> msgs[j] != Gossip(n, x)
    ensures n.members[x].Alive? ==> msgs[i].AliveMsg?
    ensures n.members[x].Suspect? ==> msgs[i].AliveMsg? || msgs[i].SuspectMsg?
  {
    var k :| 0 <= k < |order| && order[k] == x;
    assert k >= |msgs|;
    assert Rank(n.members[order[i]]) <= Rank(n.members[order[k]]);
  }

  lemma {:induction false} DistinctCount(order: seq<NodeId>, keys: set<NodeId>)
    requires forall x :: x in keys <==> x in order
    requires forall i, j :: 0 <= i < j < |order| ==> order[i] != order[j]
    ensures |order| == |keys|
    decreases |order|
  {
    if |order| == 0 {
      assert keys == {};
    } else {
      var n := |order| - 1;
      var x := order[n];
      assert order == order[..n] + [x] && x !in order[..n];
      DistinctCount(order[..n], keys - {x});
    }
  }

  /** Gossip is about as many members as the limit allows, each once. */
  lemma GossipCovers(n: Node, order: seq<NodeId>, limit: nat, msgs: seq<Message>)
    requires GossipOf(n, order, limit, msgs)
    ensures |msgs| == if limit < |n.members| then limit else |n.members|
    ensures forall i, j :: 0 <= i < j < |msgs| ==> msgs[i].node != msgs[j].node
  {
    DistinctCount(order, n.members.Keys);
    assert forall i :: 0 <= i < |msgs| ==> msgs[i] == Gossip(n, order[i]);
  }

  /** Updates are passed on as they came, and a ping that carries only updates is answered by them and an ack at the
      counter it leaves. */
  lemma {:induction false} UpdatesPassOn(n: Node, msgs: seq<Message>, now: nat)
    requires forall i :: 0 <= i < |msgs| ==> msgs[i].AliveMsg? || msgs[i].SuspectMsg? || msgs[i].DeadMsg?
    ensures HandledAll(n, msgs, now).1 == msgs
    ensures forall p, nonce ::
      var r := Handled(n, PingMsg(p, nonce, msgs), now); r.1 == msgs + [AckMsg(r.0.id, nonce, r.0.incarnation)]
    decreases |msgs|
  {
    if |msgs| > 0 {
      UpdatesPassOn(n, msgs[..|msgs| - 1], now);
      assert msgs == msgs[..|msgs| - 1] + [msgs[|msgs| - 1]];
    }
  }

  // ----- the suspicion deadline -----

  /** If x is Suspect afterwards, either the suspicion began now or it is the very record there was before. */
  ghost predicate SuspicionOld(n: Node, n': Node, x: NodeId, now: nat)
  {
    x in n'.members && n'.members[x].Suspect? && n'.members[x].since != now ==>
      x in n.members && n.members[x] == n'.members[x]
  }

  lemma {:induction false} HandledSuspicion(n: Node, msg: Message, now: nat, x: NodeId)
    ensures SuspicionOld(n, Handled(n, msg, now).0, x, now)
    decreases msg, 1
  {
    if msg.PingMsg? { HandledAllSuspicion(n, msg.piggyback, now, x); }
  }

  lemma {:induction false} HandledAllSuspicion(n: Node, msgs: seq<Message>, now: nat, x: NodeId)
    ensures SuspicionOld(n, HandledAll(n, msgs, now).0, x, now)
    decreases msgs, 0
  {
    if |msgs| > 0 {
      var k := |msgs| - 1;
      HandledAllSuspicion(n, msgs[..k], now, x);
      HandledSuspicion(HandledAll(n, msgs[..k], now).0, msgs[k], now, x);
    }
  }

  lemma EventSuspicion(n: Node, e: Event, timeout: nat, x: NodeId)
    ensures SuspicionOld(n, Apply(n, e, timeout), x, e.now)
  {
    match e
    case Live(msg, now) =>
      if msg.PingMsg? {
        HandledAllSuspicion(AfterAlive(n, msg.sender, 0), msg.piggyback, now, x);
      } else {
        HandledSuspicion(n, msg, now, x);
      }
    case Gossiped(msg, now) => HandledSuspicion(n, msg, now, x);
    case Tick(_) =>
    case ProbeFailed(_, _, _) =>
  }

  /** x has had this very record from state a to state b. */
  ghost predicate Unchanged(states: seq<Node>, a: nat, b: nat, x: NodeId, m: MemberState)
    requires a <= b < |states|
  {
    forall k :: a <= k <= b ==> x in states[k].members && states[k].members[x] == m
  }

  /** Every suspicion goes back, unbroken and at one incarnation, to the event at whose time it began. */
  lemma {:induction false} SuspicionBegan(states: seq<Node>, events: seq<Event>, timeout: nat, b: nat, x: NodeId)
    returns (a: nat)
    requires IsHistory(states, events, timeout) && b <= |events| && states[0].members == map[]
    requires x in states[b].members && states[b].members[x].Suspect?
    ensures 1 <= a <= b && Unchanged(states, a, b, x, states[b].members[x])
    ensures events[a - 1].now == states[b].members[x].since
    decreases b
  {
    var m := states[b].members[x];
    assert states[b - 1 + 1] == Apply(states[b - 1], events[b - 1], timeout);
    EventSuspicion(states[b - 1], events[b - 1], timeout, x);
    if m.since == events[b - 1].now {
      a := b;
    } else {
      a := SuspicionBegan(states, events, timeout, b - 1, x);
    }
  }

  /** x has been Suspect, by one record at one incarnation and without a break, since an event `timeout` or more
      before event b. */
  ghost predicate Overdue(states: seq<Node>, events: seq<Event>, timeout: nat, a: nat, b: nat, x: NodeId)
    requires |states| == |events| + 1 && b < |events|
  {
    && 1 <= a <= b && x in states[b].members && states[b].members[x].Suspect?
    && Unchanged(states, a, b, x, states[b].members[x]) && events[b].now >= events[a - 1].now + timeout
  }

  /**
   A tick changes a member's record exactly if the member has been continuously Suspect
   at one incarnation for the whole timeout, and then it dies at that incarnation.  So
   no suspicion as old as the timeout survives a tick, and no younger one is cut short.
   */
  lemma TickKillsIff(states: seq<Node>, events: seq<Event>, timeout: nat, b: nat, x: NodeId)
    requires IsHistory(states, events, timeout) && b < |events| && states[0].members == map[]
    requires forall i, j :: 0 <= i < j < |events| ==> events[i].now <= events[j].now
    requires events[b].Tick? && x in states[b].members
    ensures x in states[b + 1].members
    ensures (exists a: nat :: Overdue(states, events, timeout, a, b, x)) <==>
            states[b].members[x].Suspect? && states[b + 1].members[x] == Dead(states[b].members[x].incarnation)
    ensures (!exists a: nat :: Overdue(states, events, timeout, a, b, x)) <==>
            states[b + 1].members[x] == states[b].members[x]
  {
    var m := states[b].members[x];
    assert states[b + 1] == Apply(states[b], events[b], timeout);
    if m.Suspect? {
      var a := SuspicionBegan(states, events, timeout, b, x);
      if events[b].now >= events[a - 1].now + timeout { assert Overdue(states, events, timeout, a, b, x); }
    }
    forall a: nat | Overdue(states, events, timeout, a, b, x) ensures Expired(m, events[b].now, timeout) {
      assert states[a].members[x] == m;
      var a0 := SuspicionBegan(states, events, timeout, a, x);
    }
  }

  /** Suspecting again at the same or an older incarnation moves no deadline. */
  lemma {:induction false} RepeatedSuspicion(n: Node, claims: seq<(nat, nat)>, x: NodeId)
    requires x in n.members && n.members[x].Suspect? && x != n.id
    requires forall k :: 0 <= k < |claims| ==> claims[k].0 <= n.members[x].incarnation
    ensures SuspectAll(n, x, claims) == n
  {
    if |claims| > 0 { RepeatedSuspicion(n, claims[..|claims| - 1], x); }
  }

  /** `mark_suspect` with each (incarnation, time) in turn. */
  function SuspectAll(n: Node, x: NodeId, claims: seq<(nat, nat)>): Node
  {
    if |claims| == 0 then n else
      var k := |claims| - 1;
      AfterSuspect(SuspectAll(n, x, claims[..k]), x, claims[k].0, claims[k].1)
  }

  // ----- when a node defends itself -----

  /** The message, or something piggybacked in it, claims that x is suspect. */
  predicate Accuses(m: Message, x: NodeId)
    decreases m
  {
    match m
    case SuspectMsg(y, _, _) => y == x
    case PingMsg(_, _, piggyback) => exists i :: 0 <= i < |piggyback| && Accuses(piggyback[i], x)
    case _ => false
  }

  ghost predicate SomeAccuses(msgs: seq<Message>, x: NodeId)
  {
    exists i :: 0 <= i < |msgs| && Accuses(msgs[i], x)
  }

  lemma SomeAccusesLast(msgs: seq<Message>, x: NodeId)
    requires |msgs| > 0
    ensures SomeAccuses(msgs, x) <==> SomeAccuses(msgs[..|msgs| - 1], x) || Accuses(msgs[|msgs| - 1], x)
  {
  }

  /** A node raises its counter exactly when a message claims it suspect; a claim that it is dead never makes it. */
  lemma {:induction false} CounterRisesIff(n: Node, msg: Message, now: nat)
    ensures var r := Handled(n, msg, now).0;
            r.id == n.id && r.incarnation >= n.incarnation && (r.incarnation > n.incarnation <==> Accuses(msg, n.id))
    decreases msg, 1
  {
    if msg.PingMsg? { CounterRisesAllIff(n, msg.piggyback, now); }
  }

  lemma {:induction false} CounterRisesAllIff(n: Node, msgs: seq<Message>, now: nat)
    ensures var r := HandledAll(n, msgs, now).0;
            && r.id == n.id && r.incarnation >= n.incarnation
            && (r.incarnation > n.incarnation <==> SomeAccuses(msgs, n.id))
    decreases msgs, 0
  {
    if |msgs| > 0 {
      var k := |msgs| - 1;
      CounterRisesAllIff(n, msgs[..k], now);
      CounterRisesIff(HandledAll(n, msgs[..k], now).0, msgs[k], now);
      SomeAccusesLast(msgs, n.id);
    }
  }

  /** The same for the live handler. */
  lemma LiveCounterRisesIff(n: Node, msg: Message, now: nat)
    ensures var r := HandledLive(n, msg, now).0;
            r.id == n.id && r.incarnation >= n.incarnation && (r.incarnation > n.incarnation <==> Accuses(msg, n.id))
  {
    if msg.PingMsg? { CounterRisesAllIff(AfterAlive(n, msg.sender, 0), msg.piggyback, now); }
  }
}
