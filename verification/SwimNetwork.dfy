/**
 SWIM messages with a sender and an addressee, as the source sends them: a join goes to a
 configured bootstrap peer, a ping to a member held alive, a reply back to whoever sent
 the message it answers.  The network delays, loses, duplicates and reorders.

 `SwimRevival` says when a node that no peer holds alive can still come back.
 */
module SwimNetwork {
  import opened Swim
  import opened Wrappers
  import SwimLocal
  import SwimSystem

  datatype Packet = Packet(from: NodeId, to: NodeId, msg: Message)

  /** A tick between choosing its target and sending the ping: the gossip read so far, entry by entry. */
  datatype Tick = Tick(target: NodeId, gathered: seq<Message>)

  /** `contacts` holds (p, q) where q is a bootstrap peer of p. */
  datatype State = State(
    nodes: map<NodeId, Node>,
    contacts: set<(NodeId, NodeId)>,
    ticks: map<NodeId, Tick>,
    network: set<Packet>,
    pending: set<(NodeId, Message)>)

  /** `SendProbe` is the bare ping to a delegate; `ReadTarget` follows a ping that was not answered. */
  datatype Step =
    | SendJoin(p: NodeId, q: NodeId)
    | Aim(p: NodeId, q: NodeId)
    | Gather(p: NodeId, x: NodeId)
    | SendPing(p: NodeId, nonce: nat)
    | SendProbe(p: NodeId, q: NodeId, nonce: nat)
    | Deliver(packet: Packet, now: nat)
    | ReadTarget(p: NodeId, x: NodeId)
    | ReadExpired(p: NodeId, x: NodeId)
    | ApplySuspect(p: NodeId, claim: Message, now: nat)
    | ApplyDead(p: NodeId, claim: Message)

  function Actor(st: Step): NodeId
  {
    if st.Deliver? then st.packet.to else st.p
  }

  predicate HoldsAlive(n: Node, x: NodeId)
  {
    x in n.members && n.members[x].Alive?
  }

  ghost predicate PingSent(s: State, p: NodeId, q: NodeId)
  {
    exists pk :: pk in s.network && pk.from == p && pk.to == q && pk.msg.PingMsg?
  }

  ghost predicate Enabled(s: State, st: Step)
  {
    && Actor(st) in s.nodes
    && match st
       case SendJoin(p, q) => q != p && (p, q) in s.contacts
       case Aim(p, q) => p !in s.ticks && HoldsAlive(s.nodes[p], q)
       case Gather(p, x) => p in s.ticks && x in s.nodes[p].members && Find(s.ticks[p].gathered, x).None?
       case SendPing(p, _) => p in s.ticks
       case SendProbe(p, q, _) => HoldsAlive(s.nodes[p], q)
       case Deliver(packet, _) => packet in s.network
       case ReadTarget(p, x) => PingSent(s, p, x)
       case ReadExpired(p, x) => x in s.nodes[p].members && s.nodes[p].members[x].Suspect?
       case ApplySuspect(p, claim, _) => claim.SuspectMsg? && (p, claim) in s.pending
       case ApplyDead(p, claim) => claim.DeadMsg? && (p, claim) in s.pending
  }

  /** The reply goes back to the sender. */
  ghost function Replies(packet: Packet, reply: Option<Message>): set<Packet>
  {
    if reply.Some? then {Packet(packet.to, packet.from, reply.value)} else {}
  }

  ghost function After(s: State, st: Step): (s': State)
    requires Enabled(s, st)
    ensures s'.nodes.Keys == s.nodes.Keys && s'.contacts == s.contacts && s.network <= s'.network
  {
    var n := s.nodes[Actor(st)];
    match st
    case SendJoin(p, q) => s.(network := s.network + {Packet(p, q, JoinMsg(p))})
    case Aim(p, q) => s.(ticks := s.ticks[p := Tick(q, [])])
    case Gather(p, x) => s.(ticks := s.ticks[p := s.ticks[p].(gathered := s.ticks[p].gathered + [Gossip(n, x)])])
    case SendPing(p, nonce) =>
      s.(ticks := s.ticks - {p},
         network := s.network + {Packet(p, s.ticks[p].target, PingMsg(p, nonce, s.ticks[p].gathered))})
    case SendProbe(p, q, nonce) => s.(network := s.network + {Packet(p, q, PingMsg(p, nonce, []))})
    case Deliver(packet, now) =>
      var r := HandledLive(n, packet.msg, now);
      s.(nodes := s.nodes[packet.to := r.0], network := s.network + Replies(packet, r.1))
    case ReadTarget(p, x) => s.(pending := s.pending + {(p, SuspectMsg(x, LastKnown(n, x), p))})
    case ReadExpired(p, x) => s.(pending := s.pending + {(p, DeadMsg(x, n.members[x].incarnation, p))})
    case ApplySuspect(p, claim, now) => s.(nodes := s.nodes[p := AfterSuspect(n, claim.node, claim.incarnation, now)])
    case ApplyDead(p, claim) => s.(nodes := s.nodes[p := AfterDead(n, claim.node, claim.incarnation)])
  }

  ghost predicate Initial(s: State)
  {
    && (forall p :: p in s.nodes ==> s.nodes[p] == Node(p, map[], 0))
    && s.ticks == map[] && s.network == {} && s.pending == {}
  }

  ghost predicate IsRun(run: seq<State>, steps: seq<Step>)
  {
    && |run| == |steps| + 1 && Initial(run[0])
    && forall i :: 0 <= i < |steps| ==> Follows(run, steps, i)
  }

  ghost predicate Follows(run: seq<State>, steps: seq<Step>, i: nat)
    requires i < |steps| && |run| == |steps| + 1
  {
    Enabled(run[i], steps[i]) && run[i + 1] == After(run[i], steps[i])
  }

  // ----- what a message says about one node -----

  predicate IsAbout(m: Message, x: NodeId)
  {
    SwimSystem.IsUpdate(m) && m.node == x
  }

  /** The entry about x. */
  function Find(msgs: seq<Message>, x: NodeId): Option<Message>
  {
    if |msgs| == 0 then None
    else if IsAbout(msgs[|msgs| - 1], x) then Some(msgs[|msgs| - 1])
    else Find(msgs[..|msgs| - 1], x)
  }

  /** Gossip gathered by p: at most one entry for each other node. */
  ghost predicate IsDigest(msgs: seq<Message>, p: NodeId)
  {
    && (forall i :: 0 <= i < |msgs| ==> SwimSystem.IsUpdate(msgs[i]) && msgs[i].node != p)
    && (forall i, j :: 0 <= i < j < |msgs| ==> msgs[i].node != msgs[j].node)
  }

  lemma {:induction false} FindIff(msgs: seq<Message>, x: NodeId)
    ensures Find(msgs, x).None? <==> forall i :: 0 <= i < |msgs| ==> !IsAbout(msgs[i], x)
    ensures Find(msgs, x).Some? ==> Find(msgs, x).value in msgs && IsAbout(Find(msgs, x).value, x)
  {
    if |msgs| > 0 { FindIff(msgs[..|msgs| - 1], x); }
  }

  /** What the message says about x to a node other than x. */
  function Said(msg: Message, x: NodeId): Option<Message>
  {
    match msg
    case JoinMsg(y) => if y == x then Some(AliveMsg(x, 0)) else None
    case PingMsg(y, _, piggyback) => if y == x then Some(AliveMsg(x, 0)) else Find(piggyback, x)
    case AckMsg(y, _, inc) => if y == x then Some(AliveMsg(x, inc)) else None
    case OtherMsg => None
    case _ => if msg.node == x then Some(msg) else None
  }

  function Record(n: Node, x: NodeId): Option<MemberState>
  {
    if x in n.members then Some(n.members[x]) else None
  }

  /** A record after one claim. */
  function Updated(r: Option<MemberState>, c: Message, now: nat): Option<MemberState>
  {
    match c
    case AliveMsg(_, j) => if r.Some? && AliveDominated(r.value, j) then r else Some(Alive(j))
    case SuspectMsg(_, j, _) => if r.Some? && !SuspectUpdates(r.value, j) then r else Some(Suspect(j, now))
    case DeadMsg(_, j, _) => if r.Some? && r.value.Dead? && j <= r.value.incarnation then r else Some(Dead(j))
    case _ => r
  }

  function UpdatedBy(r: Option<MemberState>, c: Option<Message>, now: nat): Option<MemberState>
  {
    if c.Some? then Updated(r, c.value, now) else r
  }

  lemma {:induction false} RecordAfterAll(n: Node, msgs: seq<Message>, now: nat, p: NodeId, x: NodeId)
    requires IsDigest(msgs, p) && n.id != x
    ensures var n' := HandledAll(n, msgs, now).0;
            n'.id == n.id && Record(n', x) == UpdatedBy(Record(n, x), Find(msgs, x), now)
    decreases |msgs|
  {
    if |msgs| > 0 {
      var k := |msgs| - 1;
      RecordAfterAll(n, msgs[..k], now, p, x);
      FindIff(msgs[..k], x);
    }
  }

  /** A packet's message is one its sender sends. */
  ghost predicate IsSent(msg: Message, p: NodeId)
  {
    match msg
    case JoinMsg(y) => y == p
    case PingMsg(y, _, piggyback) => y == p && IsDigest(piggyback, p)
    case AckMsg(y, _, _) => y == p
    case AliveMsg(y, _) => y == p
    case _ => false
  }

  /** Handling a message changes the record of x by what the message says about x. */
  lemma RecordAfterLive(n: Node, msg: Message, now: nat, p: NodeId, x: NodeId)
    requires IsSent(msg, p) && n.id != x
    ensures Record(HandledLive(n, msg, now).0, x) == UpdatedBy(Record(n, x), Said(msg, x), now)
  {
    if msg.PingMsg? {
      RecordAfterAll(AfterAlive(n, p, 0), msg.piggyback, now, p, x);
      FindIff(msg.piggyback, x);
    }
  }

  // ----- forgetting addresses -----

  ghost function Forget(s: State): SwimSystem.System
  {
    SwimSystem.System(
      s.nodes,
      set pk | pk in s.network :: pk.msg,
      s.pending,
      set p, m | p in s.ticks && m in s.ticks[p].gathered :: (p, m))
  }

  ghost function Unaddressed(s: State, st: Step): SwimSystem.Step
    requires Enabled(s, st) && !st.Aim?
  {
    match st
    case SendJoin(p, _) => SwimSystem.SendJoin(p)
    case Gather(p, x) => SwimSystem.Draft(p, x)
    case SendPing(p, nonce) => SwimSystem.SendPing(p, nonce, s.ticks[p].gathered)
    case SendProbe(p, _, nonce) => SwimSystem.SendProbe(p, nonce)
    case Deliver(packet, now) => SwimSystem.DeliverLive(packet.to, packet.msg, now)
    case ReadTarget(p, x) => SwimSystem.ReadTarget(p, x)
    case ReadExpired(p, x) => SwimSystem.ReadExpired(p, x)
    case ApplySuspect(p, claim, now) => SwimSystem.ApplySuspect(p, claim, now)
    case ApplyDead(p, claim) => SwimSystem.ApplyDead(p, claim)
  }

  /** No message and no probe goes from a node to itself. */
  ghost predicate NoneToSelf(s: State)
  {
    && (forall pk :: pk in s.network ==> pk.from != pk.to)
    && (forall p :: p in s.ticks ==> p in s.nodes && s.ticks[p].target != p)
  }

  /** Without its addresses a step is a step of `SwimSystem`; choosing a target is none. */
  lemma StepForgets(s: State, st: Step)
    requires Enabled(s, st) && NoneToSelf(s)
    ensures st.Aim? ==> Forget(After(s, st)) == Forget(s)
    ensures !st.Aim? ==>
              && SwimSystem.Enabled(Forget(s), Unaddressed(s, st))
              && SwimSystem.After(Forget(s), Unaddressed(s, st)) == Forget(After(s, st))
  {
    var a, a' := Forget(s), Forget(After(s, st));
    match st
    case Deliver(packet, now) =>
      assert packet.msg in a.network;
      var r := HandledLive(s.nodes[packet.to], packet.msg, now);
      assert a'.network == a.network + SwimSystem.Reply(r.1);
    case SendJoin(p, _) =>
      assert a'.network == a.network + {JoinMsg(p)};
    case SendPing(p, nonce) =>
      assert a'.network == a.network + {PingMsg(p, nonce, s.ticks[p].gathered)};
      assert a'.drafts == SwimSystem.Others(a.drafts, p);
    case SendProbe(p, _, nonce) =>
      assert a'.network == a.network + {PingMsg(p, nonce, [])};
    case Gather(p, x) =>
      assert a'.drafts == a.drafts + {(p, Gossip(s.nodes[p], x))};
    case Aim(p, q) =>
      assert a'.drafts == a.drafts;
    case _ =>
  }

  /** Why a packet was sent: a join to a contact, a reply to a ping or a join, or a ping. */
  ghost predicate Warranted(s: State, pk: Packet)
  {
    && IsSent(pk.msg, pk.from)
    && (pk.msg.JoinMsg? ==> (pk.from, pk.to) in s.contacts)
    && (pk.msg.AliveMsg? ==> (pk.to, pk.from) in s.contacts)
    && (pk.msg.AckMsg? ==> PingSent(s, pk.to, pk.from))
  }

  ghost predicate Sound(s: State)
  {
    && SwimSystem.Inv(Forget(s)) && NoneToSelf(s)
    && (forall pk :: pk in s.network ==> Warranted(s, pk))
    && (forall p :: p in s.ticks ==> IsDigest(s.ticks[p].gathered, p))
    && (forall d :: d in s.pending ==> !IsAbout(d.1, d.0))
  }

  lemma StaysWarranted(s: State, s': State, pk: Packet)
    requires Warranted(s, pk) && s.network <= s'.network && s.contacts == s'.contacts
    ensures Warranted(s', pk)
  {
  }

  lemma GatherKeepsDigest(msgs: seq<Message>, n: Node, x: NodeId)
    requires IsDigest(msgs, n.id) && n.id !in n.members && x in n.members && Find(msgs, x).None?
    ensures IsDigest(msgs + [Gossip(n, x)], n.id)
  {
    FindIff(msgs, x);
    forall i | 0 <= i < |msgs| ensures msgs[i].node != x { assert !IsAbout(msgs[i], x); }
  }

  /** The packet a step sends, if any, is warranted. */
  lemma NewIsWarranted(s: State, st: Step, pk: Packet)
    requires Sound(s) && Enabled(s, st) && pk in After(s, st).network && pk !in s.network
    ensures Warranted(After(s, st), pk) && pk.from != pk.to
  {
    assert forall p :: p in s.nodes ==> s.nodes[p].id == p && p !in s.nodes[p].members;
    match st
    case Deliver(packet, now) =>
      SwimLocal.LiveCounterRisesIff(s.nodes[packet.to], packet.msg, now);
      assert Warranted(s, packet);
    case _ =>
  }

  lemma TicksStaySound(s: State, st: Step)
    requires Sound(s) && Enabled(s, st)
    ensures var s' := After(s, st);
            && (forall p :: p in s'.ticks ==>
                  p in s'.nodes && s'.ticks[p].target != p && IsDigest(s'.ticks[p].gathered, p))
            && (forall d :: d in s'.pending ==> !IsAbout(d.1, d.0))
  {
    assert forall p :: p in s.nodes ==> s.nodes[p].id == p && p !in s.nodes[p].members;
    if st.Gather? { GatherKeepsDigest(s.ticks[st.p].gathered, s.nodes[st.p], st.x); }
  }

  lemma PacketsStaySound(s: State, st: Step)
    requires Sound(s) && Enabled(s, st)
    ensures var s' := After(s, st); forall pk :: pk in s'.network ==> Warranted(s', pk) && pk.from != pk.to
  {
    var s' := After(s, st);
    forall pk | pk in s'.network ensures Warranted(s', pk) && pk.from != pk.to {
      if pk in s.network { StaysWarranted(s, s', pk); } else { NewIsWarranted(s, st, pk); }
    }
  }

  lemma StepKeepsSound(s: State, st: Step)
    requires Sound(s) && Enabled(s, st)
    ensures Sound(After(s, st))
  {
    StepForgets(s, st);
    if !st.Aim? { SwimSystem.StepKeepsInv(Forget(s), Unaddressed(s, st)); }
    PacketsStaySound(s, st);
    TicksStaySound(s, st);
  }

  lemma {:induction false} RunIsSound(run: seq<State>, steps: seq<Step>, i: nat)
    requires IsRun(run, steps) && i < |run|
    ensures Sound(run[i])
  {
    if i > 0 {
      RunIsSound(run, steps, i - 1);
      assert Follows(run, steps, i - 1);
      StepKeepsSound(run[i - 1], steps[i - 1]);
    } else {
      assert Forget(run[0]).drafts == {} && Forget(run[0]).network == {};
    }
  }

  // ----- the runs of `SwimSystem` -----

  /** plain[at[i]] is run[i] without its addresses. */
  ghost predicate Tracks(run: seq<State>, plain: seq<SwimSystem.System>, at: seq<nat>)
  {
    && |at| == |run|
    && (forall i :: 0 <= i < |run| ==> at[i] < |plain| && plain[at[i]] == Forget(run[i]))
    && (forall i, j :: 0 <= i < j < |at| ==> at[i] <= at[j] <= at[i] + (j - i))
  }

  lemma TracksOn(run: seq<State>, plain: seq<SwimSystem.System>, plain': seq<SwimSystem.System>, at: seq<nat>)
    requires |run| >= 2 && Tracks(run[..|run| - 1], plain, at) && at[|at| - 1] == |plain| - 1
    requires plain <= plain' && |plain'| <= |plain| + 1 && plain'[|plain'| - 1] == Forget(run[|run| - 1])
    ensures Tracks(run, plain', at + [|plain'| - 1])
  {
    var at' := at + [|plain'| - 1];
    forall i | 0 <= i < |run| ensures at'[i] < |plain'| && plain'[at'[i]] == Forget(run[i]) {
      if i < |run| - 1 { assert run[..|run| - 1][i] == run[i] && plain[at[i]] == plain'[at[i]]; }
    }
    forall i, j | 0 <= i < j < |at'| ensures at'[i] <= at'[j] <= at'[i] + (j - i) {
      if j == |at| && i < |at| - 1 { assert at[i] <= at[|at| - 1] <= at[i] + (|at| - 1 - i); }
    }
  }

  /** Every run is a run of `SwimSystem` once the addresses are forgotten, at most one step for each of its own.
      What holds of every state, or between any two states, of every `SwimSystem` run holds here. */
  lemma {:induction false} RunForgets(run: seq<State>, steps: seq<Step>)
    returns (plain: seq<SwimSystem.System>, plainSteps: seq<SwimSystem.Step>, at: seq<nat>)
    requires IsRun(run, steps)
    ensures SwimSystem.IsRun(plain, plainSteps) && Tracks(run, plain, at) && at[|steps|] == |plainSteps|
    decreases |steps|
  {
    var n := |steps|;
    if n == 0 {
      plain, plainSteps, at := [Forget(run[0])], [], [0];
      assert plain[0].network == {} && plain[0].drafts == {};
    } else {
      var run0, steps0 := run[..n], steps[..n - 1];
      forall i | 0 <= i < |steps0| ensures Follows(run0, steps0, i) { assert Follows(run, steps, i); }
      var plain0, plainSteps0, at0 := RunForgets(run0, steps0);
      assert Follows(run, steps, n - 1);
      RunIsSound(run, steps, n - 1);
      StepForgets(run[n - 1], steps[n - 1]);
      assert plain0[|plainSteps0|] == Forget(run[n - 1]);
      if steps[n - 1].Aim? {
        plain, plainSteps := plain0, plainSteps0;
      } else {
        plain, plainSteps := SwimSystem.Extended(plain0, plainSteps0, Unaddressed(run[n - 1], steps[n - 1]));
      }
      at := at0 + [|plainSteps|];
      TracksOn(run, plain0, plain, at0);
    }
  }

  // ----- what carries over -----

  /** No record of a node is ahead of the node, and neither is a packet or gossip being gathered. */
  lemma NeverAhead(run: seq<State>, steps: seq<Step>, i: nat, p: NodeId, x: NodeId)
    requires IsRun(run, steps) && i < |run| && p in run[i].nodes && x in run[i].nodes
    ensures x in run[i].nodes[p].members ==>
              run[i].nodes[p].members[x].incarnation <= run[i].nodes[x].incarnation
    ensures forall pk :: pk in run[i].network ==> SwimSystem.MsgWithin(SwimSystem.Counters(Forget(run[i])), pk.msg)
  {
    var plain, plainSteps, at := RunForgets(run, steps);
    SwimSystem.IncarnationsNeverAhead(plain, plainSteps, at[i], p, x);
    assert forall pk :: pk in run[i].network ==> pk.msg in Forget(run[i]).network;
  }

  /** Refutation wins: the step from state t raised x's counter, and the packet is an ack x sent from then on. */
  lemma RefutationReaches(run: seq<State>, steps: seq<Step>, t: nat, u: nat, pk: Packet, now: nat)
    requires IsRun(run, steps) && t < u < |run| && pk.from in run[t].nodes && pk.from in run[t + 1].nodes
    requires run[t].nodes[pk.from].incarnation < run[t + 1].nodes[pk.from].incarnation
    requires pk.msg.AckMsg? && pk in run[u].network && pk.to in run[u].nodes
    requires forall q :: q in run[t].network ==> q.msg != pk.msg
    requires pk.from in run[u].nodes[pk.to].members ==>
               run[u].nodes[pk.to].members[pk.from].incarnation <= run[t].nodes[pk.from].incarnation
    ensures Enabled(run[u], Deliver(pk, now))
    ensures var n := After(run[u], Deliver(pk, now)).nodes[pk.to];
            pk.from in n.members && n.members[pk.from] == Alive(pk.msg.incarnation)
    ensures pk.msg.incarnation >= run[t + 1].nodes[pk.from].incarnation
  {
    var plain, plainSteps, at := RunForgets(run, steps);
    RunIsSound(run, steps, u);
    assert Warranted(run[u], pk) && pk.msg in Forget(run[u]).network;
    assert plain[at[t]] == Forget(run[t]) && plain[at[t + 1]] == Forget(run[t + 1]);
    assert at[t] <= at[t + 1] <= at[t] + 1;
    SwimSystem.RefutationWins(plain, plainSteps, at[t], at[u], pk.from, pk.to, pk.msg, now);
  }

  /** A node dead everywhere at its own counter, with no suspicion of it travelling, stays so. */
  lemma StaysBuried(run: seq<State>, steps: seq<Step>, a: nat, b: nat, x: NodeId)
    requires IsRun(run, steps) && a <= b < |run| && SwimSystem.Buried(Forget(run[a]), x)
    ensures SwimSystem.Buried(Forget(run[b]), x) && run[b].nodes[x].incarnation == run[a].nodes[x].incarnation
  {
    var plain, plainSteps, at := RunForgets(run, steps);
    assert a < b ==> at[a] <= at[b];
    SwimSystem.BuriedForever(plain, plainSteps, at[a], at[b], x);
  }
}
