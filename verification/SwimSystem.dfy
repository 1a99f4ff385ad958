/**
 Nodes exchanging SWIM messages over a network that delays, loses, duplicates
 and reorders.  `network` holds every message ever sent: a message is delivered
 any number of times, at any time, or never.  No node restarts.

 This system does more than the source: any node may ping, a message may reach any
 node, and a node may also handle a message as gossip and send on what that gives.
 What holds of all its runs holds of the source's; `SwimNetwork` says who may send
 what to whom, and each of its runs is one of these with the addresses forgotten.
 */
module SwimSystem {
  import opened Swim
  import opened Wrappers
  import SwimLocal

  /** `pending` holds claims a node has read from its table and not yet applied to it: the source reads the
      incarnation of a probe target, or scans for expired suspects, and marks in a later step.  `drafts` holds the
      gossip a node has read, entry by entry, for its next ping. */
  datatype System = System(
    nodes: map<NodeId, Node>,
    network: set<Message>,
    pending: set<(NodeId, Message)>,
    drafts: set<(NodeId, Message)>)

  datatype Step =
    | DeliverLive(p: NodeId, msg: Message, now: nat)
    | DeliverGossip(p: NodeId, msg: Message, now: nat)
    | SendJoin(p: NodeId)
    | Draft(p: NodeId, x: NodeId)
    | SendPing(p: NodeId, nonce: nat, piggyback: seq<Message>)
    | SendProbe(p: NodeId, nonce: nat)
    | ReadTarget(p: NodeId, x: NodeId)
    | ReadExpired(p: NodeId, x: NodeId)
    | ApplySuspect(p: NodeId, claim: Message, now: nat)
    | ApplyDead(p: NodeId, claim: Message)

  ghost predicate Enabled(s: System, st: Step)
  {
    && st.p in s.nodes
    && match st
       case DeliverLive(_, msg, _) => msg in s.network
       case DeliverGossip(_, msg, _) => msg in s.network
       case SendJoin(_) => true
       case Draft(p, x) => x in s.nodes[p].members
       case SendPing(p, _, piggyback) => forall i :: 0 <= i < |piggyback| ==> (p, piggyback[i]) in s.drafts
       case SendProbe(_, _) => true
       case ReadTarget(p, x) => x != p
       case ReadExpired(p, x) => x in s.nodes[p].members && s.nodes[p].members[x].Suspect?
       case ApplySuspect(p, claim, _) => claim.SuspectMsg? && (p, claim) in s.pending
       case ApplyDead(p, claim) => claim.DeadMsg? && (p, claim) in s.pending
  }

  ghost function Sent(msgs: seq<Message>): set<Message>
  {
    set m | m in msgs
  }

  ghost function Reply(r: Option<Message>): set<Message>
  {
    if r.Some? then {r.value} else {}
  }

  ghost function Others(drafts: set<(NodeId, Message)>, p: NodeId): set<(NodeId, Message)>
  {
    set d | d in drafts && d.0 != p
  }

  ghost function After(s: System, st: Step): System
    requires Enabled(s, st)
  {
    var n := s.nodes[st.p];
    match st
    case DeliverLive(p, msg, now) =>
      var r := HandledLive(n, msg, now);
      s.(nodes := s.nodes[p := r.0], network := s.network + Reply(r.1))
    case DeliverGossip(p, msg, now) =>
      var r := Handled(n, msg, now);
      s.(nodes := s.nodes[p := r.0], network := s.network + Sent(r.1))
    case SendJoin(p) => s.(network := s.network + {JoinMsg(p)})
    case Draft(p, x) => s.(drafts := s.drafts + {(p, Gossip(n, x))})
    case SendPing(p, nonce, piggyback) =>
      s.(network := s.network + {PingMsg(p, nonce, piggyback)}, drafts := Others(s.drafts, p))
    case SendProbe(p, nonce) => s.(network := s.network + {PingMsg(p, nonce, [])})
    case ReadTarget(p, x) => s.(pending := s.pending + {(p, SuspectMsg(x, LastKnown(n, x), p))})
    case ReadExpired(p, x) => s.(pending := s.pending + {(p, DeadMsg(x, n.members[x].incarnation, p))})
    case ApplySuspect(p, claim, now) => s.(nodes := s.nodes[p := AfterSuspect(n, claim.node, claim.incarnation, now)])
    case ApplyDead(p, claim) => s.(nodes := s.nodes[p := AfterDead(n, claim.node, claim.incarnation)])
  }

  ghost predicate Initial(s: System)
  {
    && (forall p :: p in s.nodes ==> s.nodes[p] == Node(p, map[], 0))
    && s.network == {} && s.pending == {} && s.drafts == {}
  }

  /** A run: run[i + 1] is what steps[i] makes of run[i]. */
  ghost predicate IsRun(run: seq<System>, steps: seq<Step>)
  {
    && |run| == |steps| + 1 && Initial(run[0])
    && forall i :: 0 <= i < |steps| ==> Follows(run, steps, i)
  }

  ghost predicate Follows(run: seq<System>, steps: seq<Step>, i: nat)
    requires i < |steps| && |run| == |steps| + 1
  {
    Enabled(run[i], steps[i]) && run[i + 1] == After(run[i], steps[i])
  }

  // ----- no claim about a node is ahead of the node -----

  /** Counters by node, zero for a node that is not there. */
  function At(c: map<NodeId, nat>, x: NodeId): nat { if x in c then c[x] else 0 }

  ghost predicate MsgWithin(c: map<NodeId, nat>, msg: Message)
  {
    match msg
    case JoinMsg(_) => true
    case AliveMsg(x, i) => i <= At(c, x)
    case SuspectMsg(x, i, _) => i <= At(c, x)
    case DeadMsg(x, i, _) => i <= At(c, x)
    case PingMsg(_, _, piggyback) => forall i :: 0 <= i < |piggyback| ==> MsgWithin(c, piggyback[i])
    case AckMsg(x, _, i) => i <= At(c, x)
    case OtherMsg => true
  }

  ghost predicate NodeWithin(c: map<NodeId, nat>, n: Node)
  {
    && n.id !in n.members
    && n.id in c && c[n.id] == n.incarnation
    && forall x :: x in n.members ==> n.members[x].incarnation <= At(c, x)
  }

  ghost predicate Raised(c: map<NodeId, nat>, c': map<NodeId, nat>)
  {
    forall x :: At(c, x) <= At(c', x)
  }

  lemma {:induction false} MsgStaysWithin(c: map<NodeId, nat>, c': map<NodeId, nat>, msg: Message)
    requires MsgWithin(c, msg) && Raised(c, c')
    ensures MsgWithin(c', msg)
    decreases msg
  {
    if msg.PingMsg? {
      forall i | 0 <= i < |msg.piggyback| ensures MsgWithin(c', msg.piggyback[i]) {
        MsgStaysWithin(c, c', msg.piggyback[i]);
      }
    }
  }

  /** Handling a message keeps the table within the counters, raising at most the node's own. */
  lemma {:induction false} HandledWithin(c: map<NodeId, nat>, n: Node, msg: Message, now: nat)
    requires NodeWithin(c, n) && MsgWithin(c, msg)
    ensures var r := Handled(n, msg, now);
            var c' := c[n.id := r.0.incarnation];
            && r.0.id == n.id && r.0.incarnation >= n.incarnation
            && NodeWithin(c', r.0)
            && forall i :: 0 <= i < |r.1| ==> MsgWithin(c', r.1[i])
    decreases msg, 1
  {
    if msg.PingMsg? {
      HandledAllWithin(c, n, msg.piggyback, now);
    } else {
      var c' := c[n.id := Handled(n, msg, now).0.incarnation];
      assert Raised(c, c');
      MsgStaysWithin(c, c', msg);
    }
  }

  lemma {:induction false} HandledAllWithin(c: map<NodeId, nat>, n: Node, msgs: seq<Message>, now: nat)
    requires NodeWithin(c, n) && forall i :: 0 <= i < |msgs| ==> MsgWithin(c, msgs[i])
    ensures var r := HandledAll(n, msgs, now);
            var c' := c[n.id := r.0.incarnation];
            && r.0.id == n.id && r.0.incarnation >= n.incarnation
            && NodeWithin(c', r.0)
            && forall i :: 0 <= i < |r.1| ==> MsgWithin(c', r.1[i])
    decreases msgs, 0
  {
    if |msgs| == 0 {
      assert c[n.id := n.incarnation] == c;
    } else {
      var k := |msgs| - 1;
      HandledAllWithin(c, n, msgs[..k], now);
      var r1 := HandledAll(n, msgs[..k], now);
      var c1 := c[n.id := r1.0.incarnation];
      MsgStaysWithin(c, c1, msgs[k]);
      HandledWithin(c1, r1.0, msgs[k], now);
      var r2 := Handled(r1.0, msgs[k], now);
      var c2 := c[n.id := r2.0.incarnation];
      assert c1[n.id := r2.0.incarnation] == c2;
      forall i | 0 <= i < |r1.1| ensures MsgWithin(c2, r1.1[i]) { MsgStaysWithin(c1, c2, r1.1[i]); }
    }
  }

  lemma HandledLiveWithin(c: map<NodeId, nat>, n: Node, msg: Message, now: nat)
    requires NodeWithin(c, n) && MsgWithin(c, msg)
    ensures var r := HandledLive(n, msg, now);
            var c' := c[n.id := r.0.incarnation];
            && r.0.id == n.id && r.0.incarnation >= n.incarnation
            && NodeWithin(c', r.0)
            && forall m :: m in Reply(r.1) ==> MsgWithin(c', m)
  {
    if msg.PingMsg? {
      HandledAllWithin(c, AfterAlive(n, msg.sender, 0), msg.piggyback, now);
    } else {
      HandledWithin(c, n, msg, now);
    }
  }

  ghost function Counters(s: System): map<NodeId, nat>
  {
    map p | p in s.nodes :: s.nodes[p].incarnation
  }

  ghost predicate Inv(s: System)
  {
    var c := Counters(s);
    && (forall p :: p in s.nodes ==> s.nodes[p].id == p && NodeWithin(c, s.nodes[p]))
    && (forall m :: m in s.network ==> MsgWithin(c, m))
    && (forall d :: d in s.pending + s.drafts ==> MsgWithin(c, d.1))
  }

  /** Replacing one node by a later version of itself, and sending messages, keeps the invariant. */
  lemma NodeAdvances(s: System, s': System, p: NodeId, n: Node, out: set<Message>)
    requires Inv(s) && p in s.nodes && n.id == p && n.incarnation >= s.nodes[p].incarnation
    requires s' == s.(nodes := s.nodes[p := n], network := s.network + out)
    requires NodeWithin(Counters(s)[p := n.incarnation], n)
    requires forall m :: m in out ==> MsgWithin(Counters(s)[p := n.incarnation], m)
    ensures Inv(s') && Raised(Counters(s), Counters(s'))
  {
    var c, c' := Counters(s), Counters(s');
    assert c' == c[p := n.incarnation];
    assert Raised(c, c');
    forall q | q in s'.nodes ensures s'.nodes[q].id == q && NodeWithin(c', s'.nodes[q]) {
      if q != p {
        assert NodeWithin(c, s.nodes[q]);
        forall x | x in s.nodes[q].members ensures s.nodes[q].members[x].incarnation <= At(c', x) {
          assert At(c, x) <= At(c', x);
        }
      }
    }
    forall m | m in s'.network ensures MsgWithin(c', m) {
      if m in s.network { MsgStaysWithin(c, c', m); }
    }
    forall d | d in s'.pending + s'.drafts ensures MsgWithin(c', d.1) {
      MsgStaysWithin(c, c', d.1);
    }
  }

  lemma StepKeepsInv(s: System, st: Step)
    requires Inv(s) && Enabled(s, st)
    ensures Inv(After(s, st)) && Raised(Counters(s), Counters(After(s, st)))
  {
    var c, n, s' := Counters(s), s.nodes[st.p], After(s, st);
    assert NodeWithin(c, n);
    match st
    case DeliverLive(p, msg, now) =>
      var r := HandledLive(n, msg, now);
      HandledLiveWithin(c, n, msg, now);
      NodeAdvances(s, s', p, r.0, Reply(r.1));
    case DeliverGossip(p, msg, now) =>
      var r := Handled(n, msg, now);
      HandledWithin(c, n, msg, now);
      NodeAdvances(s, s', p, r.0, Sent(r.1));
    case SendJoin(p) =>
      assert Counters(s') == c;
    case Draft(p, x) =>
      assert Counters(s') == c;
    case SendPing(p, _, piggyback) =>
      assert Counters(s') == c;
      forall i | 0 <= i < |piggyback| ensures MsgWithin(c, piggyback[i]) { assert (p, piggyback[i]) in s.drafts; }
    case SendProbe(p, _) =>
      assert Counters(s') == c;
    case ReadTarget(p, x) =>
      assert Counters(s') == c;
    case ReadExpired(p, x) =>
      assert Counters(s') == c;
    case ApplySuspect(p, claim, now) =>
      ApplyKeepsInv(s, s', p, claim, AfterSuspect(n, claim.node, claim.incarnation, now));
    case ApplyDead(p, claim) =>
      ApplyKeepsInv(s, s', p, claim, AfterDead(n, claim.node, claim.incarnation));
  }

  lemma ApplyKeepsInv(s: System, s': System, p: NodeId, claim: Message, n': Node)
    requires Inv(s) && p in s.nodes && (p, claim) in s.pending && s' == s.(nodes := s.nodes[p := n'])
    requires (claim.SuspectMsg? && exists now :: n' == AfterSuspect(s.nodes[p], claim.node, claim.incarnation, now))
          || (claim.DeadMsg? && n' == AfterDead(s.nodes[p], claim.node, claim.incarnation))
    ensures Inv(s') && Raised(Counters(s), Counters(s'))
  {
    var c := Counters(s);
    assert NodeWithin(c, s.nodes[p]) && MsgWithin(c, claim);
    NodeAdvances(s, s', p, n', {});
  }

  lemma {:induction false} RunKeepsInv(run: seq<System>, steps: seq<Step>, i: nat)
    requires IsRun(run, steps) && i < |run|
    ensures Inv(run[i])
  {
    if i > 0 {
      RunKeepsInv(run, steps, i - 1);
      assert Follows(run, steps, i - 1);
      StepKeepsInv(run[i - 1], steps[i - 1]);
    }
  }

  /** In every reachable state, no record of a node and no message about it, however deeply piggybacked, carries
      an incarnation above the node's own counter. */
  lemma IncarnationsNeverAhead(run: seq<System>, steps: seq<Step>, i: nat, p: NodeId, x: NodeId)
    requires IsRun(run, steps) && i < |run| && p in run[i].nodes && x in run[i].nodes
    ensures x in run[i].nodes[p].members ==>
              run[i].nodes[p].members[x].incarnation <= run[i].nodes[x].incarnation
    ensures forall m :: m in run[i].network ==> MsgWithin(Counters(run[i]), m)
  {
    RunKeepsInv(run, steps, i);
    assert NodeWithin(Counters(run[i]), run[i].nodes[p]);
  }

  // ----- refutation -----

  lemma StepRaises(run: seq<System>, steps: seq<Step>, i: nat)
    requires IsRun(run, steps) && i < |steps|
    ensures Raised(Counters(run[i]), Counters(run[i + 1]))
  {
    RunKeepsInv(run, steps, i);
    assert Follows(run, steps, i);
    StepKeepsInv(run[i], steps[i]);
  }

  lemma {:induction false} CountersRise(run: seq<System>, steps: seq<Step>, i: nat, j: nat, x: NodeId)
    requires IsRun(run, steps) && i <= j < |run|
    ensures At(Counters(run[i]), x) <= At(Counters(run[j]), x)
    decreases j
  {
    if i < j {
      CountersRise(run, steps, i, j - 1, x);
      StepRaises(run, steps, j - 1);
    }
  }

  predicate IsUpdate(m: Message) { m.AliveMsg? || m.SuspectMsg? || m.DeadMsg? }

  /** Pings carry only membership updates: nothing in the network is nested deeper. */
  predicate Flat(m: Message)
  {
    m.PingMsg? ==> forall i :: 0 <= i < |m.piggyback| ==> IsUpdate(m.piggyback[i])
  }

  /** Updates are answered by themselves and leave no ack. */
  lemma {:induction false} UpdatesEcho(n: Node, msgs: seq<Message>, now: nat)
    requires forall i :: 0 <= i < |msgs| ==> IsUpdate(msgs[i])
    ensures var r := HandledAll(n, msgs, now);
            r.0.id == n.id && forall i :: 0 <= i < |r.1| ==> IsUpdate(r.1[i])
    decreases |msgs|
  {
    if |msgs| > 0 { UpdatesEcho(n, msgs[..|msgs| - 1], now); }
  }

  ghost predicate FlatNetwork(s: System)
  {
    && (forall m :: m in s.network ==> Flat(m))
    && (forall d :: d in s.drafts ==> IsUpdate(d.1))
    && (forall p :: p in s.nodes ==> s.nodes[p].id == p)
  }

  /** An ack enters the network only from its sender, at the counter the sender then has. */
  lemma NewAckIsCurrent(s: System, st: Step, ack: Message)
    requires FlatNetwork(s) && Enabled(s, st)
    ensures FlatNetwork(After(s, st))
    ensures ack.AckMsg? && ack in After(s, st).network && ack !in s.network ==>
              ack.incarnation == At(Counters(After(s, st)), ack.sender)
  {
    var n := s.nodes[st.p];
    match st
    case DeliverLive(p, msg, now) =>
      if msg.PingMsg? { UpdatesEcho(AfterAlive(n, msg.sender, 0), msg.piggyback, now); }
    case DeliverGossip(p, msg, now) =>
      if msg.PingMsg? { UpdatesEcho(n, msg.piggyback, now); }
    case SendPing(p, _, piggyback) =>
      forall i | 0 <= i < |piggyback| ensures IsUpdate(piggyback[i]) { assert (p, piggyback[i]) in s.drafts; }
    case _ =>
  }

  lemma {:induction false} RunStaysFlat(run: seq<System>, steps: seq<Step>, i: nat)
    requires IsRun(run, steps) && i < |run|
    ensures FlatNetwork(run[i])
  {
    if i > 0 {
      RunStaysFlat(run, steps, i - 1);
      assert Follows(run, steps, i - 1);
      NewAckIsCurrent(run[i - 1], steps[i - 1], OtherMsg);
    }
  }

  /** An ack sent after state t carries at least the counter its sender has in state t + 1. */
  lemma {:induction false} LaterAck(run: seq<System>, steps: seq<Step>, t: nat, u: nat, ack: Message)
    requires IsRun(run, steps) && t < u < |run| && ack.AckMsg?
    requires ack !in run[t].network && ack in run[u].network
    ensures At(Counters(run[t + 1]), ack.sender) <= ack.incarnation
    decreases u
  {
    if ack in run[u - 1].network {
      LaterAck(run, steps, t, u - 1, ack);
    } else {
      RunStaysFlat(run, steps, u - 1);
      assert Follows(run, steps, u - 1);
      NewAckIsCurrent(run[u - 1], steps[u - 1], ack);
      CountersRise(run, steps, t + 1, u, ack.sender);
    }
  }

  /** Refutation wins.  The step from state t raised x's counter: x handled a claim that it is suspect.  Any ack x
      sends from then on, delivered in any later state to a peer whose record of x is no newer than that claim,
      leaves x alive there at the ack's incarnation, whether the record was Suspect, Dead or Alive. */
  lemma RefutationWins(run: seq<System>, steps: seq<Step>, t: nat, u: nat, x: NodeId, p: NodeId, ack: Message, now: nat)
    requires IsRun(run, steps) && t < u < |run| && x in run[t].nodes && x in run[t + 1].nodes
    requires run[t].nodes[x].incarnation < run[t + 1].nodes[x].incarnation
    requires ack.AckMsg? && ack.sender == x && ack !in run[t].network && ack in run[u].network
    requires p in run[u].nodes && p != x
    requires x in run[u].nodes[p].members ==>
               run[u].nodes[p].members[x].incarnation <= run[t].nodes[x].incarnation
    ensures Enabled(run[u], DeliverLive(p, ack, now))
    ensures var n := After(run[u], DeliverLive(p, ack, now)).nodes[p];
            x in n.members && n.members[x] == Alive(ack.incarnation)
    ensures ack.incarnation >= run[t + 1].nodes[x].incarnation
  {
    LaterAck(run, steps, t, u, ack);
    RunStaysFlat(run, steps, u);
  }

  // ----- a death that is never refuted -----

  ghost predicate SuspectsNot(m: Message, x: NodeId)
  {
    && !(m.SuspectMsg? && m.node == x)
    && (m.PingMsg? ==> forall i :: 0 <= i < |m.piggyback| ==>
                         !(m.piggyback[i].SuspectMsg? && m.piggyback[i].node == x))
  }

  /** Every other node holds x dead at x's own counter, and no claim that x is suspect is on its way to x. */
  ghost predicate Buried(s: System, x: NodeId)
  {
    && x in s.nodes
    && (forall p :: p in s.nodes && p != x ==> DeadAtCounter(s.nodes[p], x, s.nodes[x].incarnation))
    && (forall m :: m in s.network ==> SuspectsNot(m, x))
    && (forall d :: d in s.pending ==> !(d.0 == x && d.1.SuspectMsg? && d.1.node == x))
    && (forall d :: d in s.drafts ==> SuspectsNot(d.1, x))
  }

  ghost predicate DeadAtCounter(n: Node, x: NodeId, i: nat)
  {
    x in n.members && n.members[x] == Dead(i) && n.id != x
  }

  lemma {:induction false} UpdatesStayBuried(n: Node, msgs: seq<Message>, now: nat, c: map<NodeId, nat>, x: NodeId)
    requires forall i :: 0 <= i < |msgs| ==> IsUpdate(msgs[i]) && MsgWithin(c, msgs[i])
    requires forall i :: 0 <= i < |msgs| ==> !(msgs[i].SuspectMsg? && msgs[i].node == x)
    requires n.id != x ==> DeadAtCounter(n, x, At(c, x))
    ensures var r := HandledAll(n, msgs, now);
            && (n.id != x ==> DeadAtCounter(r.0, x, At(c, x)))
            && (n.id == x ==> r.0.id == x && r.0.incarnation == n.incarnation)
            && forall i :: 0 <= i < |r.1| ==> r.1[i] in msgs
    decreases |msgs|
  {
    if |msgs| > 0 {
      UpdatesStayBuried(n, msgs[..|msgs| - 1], now, c, x);
    }
  }

  lemma GossipStaysBuried(s: System, p: NodeId, msg: Message, now: nat, x: NodeId)
    requires Inv(s) && FlatNetwork(s) && Buried(s, x) && p in s.nodes && msg in s.network
    ensures var r := Handled(s.nodes[p], msg, now);
            && (p != x ==> DeadAtCounter(r.0, x, s.nodes[x].incarnation))
            && (p == x ==> r.0.incarnation == s.nodes[x].incarnation)
            && forall i :: 0 <= i < |r.1| ==> SuspectsNot(r.1[i], x)
  {
    var c, n := Counters(s), s.nodes[p];
    assert MsgWithin(c, msg) && SuspectsNot(msg, x) && Flat(msg);
    if msg.PingMsg? { UpdatesStayBuried(n, msg.piggyback, now, c, x); }
  }

  lemma LiveStaysBuried(s: System, p: NodeId, msg: Message, now: nat, x: NodeId)
    requires Inv(s) && FlatNetwork(s) && Buried(s, x) && p in s.nodes && msg in s.network
    ensures var r := HandledLive(s.nodes[p], msg, now);
            && (p != x ==> DeadAtCounter(r.0, x, s.nodes[x].incarnation))
            && (p == x ==> r.0.incarnation == s.nodes[x].incarnation)
            && forall m :: m in Reply(r.1) ==> SuspectsNot(m, x)
  {
    var c, n := Counters(s), s.nodes[p];
    assert MsgWithin(c, msg) && SuspectsNot(msg, x) && Flat(msg);
    if msg.PingMsg? { UpdatesStayBuried(AfterAlive(n, msg.sender, 0), msg.piggyback, now, c, x); }
  }

  /** One node replaced and messages added. */
  lemma ChangeStaysBuried(s: System, p: NodeId, n: Node, sent: set<Message>, x: NodeId)
    requires Buried(s, x) && p in s.nodes
    requires p != x ==> DeadAtCounter(n, x, s.nodes[x].incarnation)
    requires p == x ==> n.incarnation == s.nodes[x].incarnation
    requires forall m :: m in sent ==> SuspectsNot(m, x)
    ensures Buried(s.(nodes := s.nodes[p := n], network := s.network + sent), x)
  {
  }

  lemma DeliveryStaysBuried(s: System, p: NodeId, msg: Message, now: nat, x: NodeId)
    requires Inv(s) && FlatNetwork(s) && Buried(s, x) && p in s.nodes && msg in s.network
    ensures Buried(After(s, DeliverLive(p, msg, now)), x) && Buried(After(s, DeliverGossip(p, msg, now)), x)
  {
    LiveStaysBuried(s, p, msg, now, x);
    GossipStaysBuried(s, p, msg, now, x);
    var live, gossip := HandledLive(s.nodes[p], msg, now), Handled(s.nodes[p], msg, now);
    ChangeStaysBuried(s, p, live.0, Reply(live.1), x);
    ChangeStaysBuried(s, p, gossip.0, Sent(gossip.1), x);
  }

  lemma CounterStays(s: System, p: NodeId, msg: Message, now: nat, x: NodeId)
    requires Inv(s) && FlatNetwork(s) && Buried(s, x) && p in s.nodes && msg in s.network
    ensures After(s, DeliverLive(p, msg, now)).nodes[x].incarnation == s.nodes[x].incarnation
    ensures After(s, DeliverGossip(p, msg, now)).nodes[x].incarnation == s.nodes[x].incarnation
  {
    LiveStaysBuried(s, p, msg, now, x);
    GossipStaysBuried(s, p, msg, now, x);
  }

  lemma StepStaysBuried(s: System, st: Step, x: NodeId)
    requires Inv(s) && FlatNetwork(s) && Enabled(s, st) && Buried(s, x)
    ensures Buried(After(s, st), x) && After(s, st).nodes[x].incarnation == s.nodes[x].incarnation
  {
    if st.DeliverLive? || st.DeliverGossip? {
      DeliveryStaysBuried(s, st.p, st.msg, st.now, x);
      CounterStays(s, st.p, st.msg, st.now, x);
    } else {
      OwnStepStaysBuried(s, st, x);
    }
  }

  lemma OwnStepStaysBuried(s: System, st: Step, x: NodeId)
    requires Inv(s) && Enabled(s, st) && Buried(s, x) && !st.DeliverLive? && !st.DeliverGossip?
    ensures Buried(After(s, st), x) && After(s, st).nodes[x].incarnation == s.nodes[x].incarnation
  {
    if st.ApplySuspect? || st.ApplyDead? {
      ClaimStaysBuried(s, st, x);
    } else {
      ReadStaysBuried(s, st, x);
    }
  }

  lemma ClaimStaysBuried(s: System, st: Step, x: NodeId)
    requires Inv(s) && Enabled(s, st) && Buried(s, x) && (st.ApplySuspect? || st.ApplyDead?)
    ensures Buried(After(s, st), x) && After(s, st).nodes[x].incarnation == s.nodes[x].incarnation
  {
    var n := After(s, st).nodes[st.p];
    assert (st.p, st.claim) in s.pending + s.drafts;
    if st.p != x {
      assert DeadAtCounter(s.nodes[st.p], x, s.nodes[x].incarnation);
      assert DeadAtCounter(n, x, s.nodes[x].incarnation);
    }
    ChangeStaysBuried(s, st.p, n, {}, x);
    assert s.network + {} == s.network;
  }

  /** A step that only reads tables and sends. */
  lemma ReadStaysBuried(s: System, st: Step, x: NodeId)
    requires Inv(s) && Enabled(s, st) && Buried(s, x) && After(s, st).nodes == s.nodes
    requires st.SendJoin? || st.Draft? || st.SendPing? || st.SendProbe? || st.ReadTarget? || st.ReadExpired?
    ensures Buried(After(s, st), x)
  {
    var s' := After(s, st);
    assert forall p :: p in s.nodes && p != x ==> DeadAtCounter(s.nodes[p], x, s.nodes[x].incarnation);
    if st.SendPing? {
      forall i | 0 <= i < |st.piggyback| ensures SuspectsNot(st.piggyback[i], x) {
        assert (st.p, st.piggyback[i]) in s.drafts;
      }
    }
  }

  /** The module's header says that a node refutes suspect and dead claims by raising its counter.  A Dead claim
      never makes it do so: once every peer holds x dead at x's current counter and no suspicion of x is still
      travelling, x keeps that counter and stays dead everywhere in every continuation, however much it sends. */
  lemma {:induction false} BuriedForever(run: seq<System>, steps: seq<Step>, a: nat, b: nat, x: NodeId)
    requires IsRun(run, steps) && a <= b < |run| && Buried(run[a], x)
    ensures Buried(run[b], x) && run[b].nodes[x].incarnation == run[a].nodes[x].incarnation
    decreases b
  {
    if a < b {
      BuriedForever(run, steps, a, b - 1, x);
      RunKeepsInv(run, steps, b - 1);
      RunStaysFlat(run, steps, b - 1);
      assert Follows(run, steps, b - 1);
      StepStaysBuried(run[b - 1], steps[b - 1], x);
    }
  }

  lemma Extended(run: seq<System>, steps: seq<Step>, st: Step) returns (run': seq<System>, steps': seq<Step>)
    requires IsRun(run, steps) && Enabled(run[|steps|], st)
    ensures IsRun(run', steps') && |steps'| == |steps| + 1 && run'[|steps'|] == After(run[|steps|], st)
    ensures run <= run' && steps <= steps'
  {
    run', steps' := run + [After(run[|steps|], st)], steps + [st];
    forall i | 0 <= i < |steps'| ensures Follows(run', steps', i) {
      if i < |steps| { assert Follows(run, steps, i); }
    }
  }

  /** Node 1 holds `m` of node 0 after node 0 has joined. */
  ghost function Pair(m: MemberState, pending: set<(NodeId, Message)>): System
  {
    System(map[0 := Node(0, map[], 0), 1 := Node(1, map[0 := m], 0)], {JoinMsg(0), AliveMsg(1, 0)}, pending, {})
  }

  lemma Replaced(m: MemberState, m': MemberState, pending: set<(NodeId, Message)>)
    ensures var s := Pair(m, pending);
      s.(nodes := s.nodes[1 := s.nodes[1].(members := s.nodes[1].members[0 := m'])]) == Pair(m', pending)
  {
    var members: map<NodeId, MemberState> := map[0 := m];
    assert members[0 := m'] == map[0 := m'];
  }

  lemma JoinIsReachable() returns (run: seq<System>, steps: seq<Step>)
    ensures IsRun(run, steps) && run[|steps|] == Pair(Alive(0), {})
  {
    run, steps := [System(map[0 := Node(0, map[], 0), 1 := Node(1, map[], 0)], {}, {}, {})], [];
    run, steps := Extended(run, steps, SendJoin(0));
    run, steps := Extended(run, steps, DeliverLive(1, JoinMsg(0), 0));
  }

  /** Such a death is reached: node 1 hears that node 0 joined, probes it in vain and lets the suspicion expire. */
  lemma BuriedIsReachable() returns (run: seq<System>, steps: seq<Step>)
    ensures IsRun(run, steps) && Buried(run[|steps|], 0) && 1 in run[|steps|].nodes
  {
    var suspicion, death := (1, SuspectMsg(0, 0, 1)), (1, DeadMsg(0, 0, 1));
    run, steps := JoinIsReachable();
    run, steps := Extended(run, steps, ReadTarget(1, 0));
    assert run[|steps|] == Pair(Alive(0), {suspicion});
    Replaced(Alive(0), Suspect(0, 0), {suspicion});
    run, steps := Extended(run, steps, ApplySuspect(1, suspicion.1, 0));
    assert run[|steps|] == Pair(Suspect(0, 0), {suspicion});
    run, steps := Extended(run, steps, ReadExpired(1, 0));
    assert run[|steps|] == Pair(Suspect(0, 0), {suspicion, death});
    Replaced(Suspect(0, 0), Dead(0), {suspicion, death});
    run, steps := Extended(run, steps, ApplyDead(1, death.1));
    assert run[|steps|] == Pair(Dead(0), {suspicion, death});
  }
}
