/**
 One node's SWIM membership table and how messages and ticks change it.

 A counter is unbounded here; the source's wraps after 2^64 refutations.
 */
module Swim {
  import opened Wrappers

  type NodeId = nat

  datatype MemberState =
    | Alive(incarnation: nat)
    | Suspect(incarnation: nat, since: nat)
    | Dead(incarnation: nat)

  datatype Message =
    | JoinMsg(node: NodeId)
    | AliveMsg(node: NodeId, incarnation: nat)
    | SuspectMsg(node: NodeId, incarnation: nat, reporter: NodeId)
    | DeadMsg(node: NodeId, incarnation: nat, reporter: NodeId)
    | PingMsg(sender: NodeId, nonce: nat, piggyback: seq<Message>)
    | AckMsg(sender: NodeId, nonce: nat, incarnation: nat)
    | OtherMsg

  /** What a node holds: its identity, the table, which never has an entry for itself, and its own counter. */
  datatype Node = Node(id: NodeId, members: map<NodeId, MemberState>, incarnation: nat)

  // ----- what each operation does -----

  function AfterAlive(n: Node, x: NodeId, inc: nat): Node
  {
    if x == n.id then n
    else if x in n.members && AliveDominated(n.members[x], inc) then n
    else n.(members := n.members[x := Alive(inc)])
  }

  predicate AliveDominated(m: MemberState, inc: nat)
  {
    match m
    case Alive(i) => inc <= i
    case Suspect(i, _) => inc < i
    case Dead(i) => inc <= i
  }

  function AfterSuspect(n: Node, x: NodeId, inc: nat, now: nat): Node
  {
    if x == n.id then n.(incarnation := n.incarnation + 1)
    else if x in n.members && !SuspectUpdates(n.members[x], inc) then n
    else n.(members := n.members[x := Suspect(inc, now)])
  }

  predicate SuspectUpdates(m: MemberState, inc: nat)
  {
    match m
    case Alive(i) => inc >= i
    case Suspect(i, _) => inc > i
    case Dead(_) => false
  }

  function AfterDead(n: Node, x: NodeId, inc: nat): Node
  {
    if x == n.id then n
    else if x in n.members && n.members[x].Dead? && inc <= n.members[x].incarnation then n
    else n.(members := n.members[x := Dead(inc)])
  }

  /** `handle_message`: the new state and the messages to propagate. */
  function Handled(n: Node, msg: Message, now: nat): (Node, seq<Message>)
    decreases msg, 1
  {
    match msg
    case JoinMsg(x) => (AfterAlive(n, x, 0), [AliveMsg(n.id, n.incarnation)])
    case AliveMsg(x, inc) => (AfterAlive(n, x, inc), [msg])
    case SuspectMsg(x, inc, _) => (AfterSuspect(n, x, inc, now), [msg])
    case DeadMsg(x, inc, _) => (AfterDead(n, x, inc), [msg])
    case PingMsg(_, nonce, piggyback) =>
      var (n', out) := HandledAll(n, piggyback, now);
      (n', out + [AckMsg(n'.id, nonce, n'.incarnation)])
    case AckMsg(x, _, inc) => (AfterAlive(n, x, inc), [])
    case OtherMsg => (n, [])
  }

  function HandledAll(n: Node, msgs: seq<Message>, now: nat): (Node, seq<Message>)
    decreases msgs, 0
  {
    if |msgs| == 0 then (n, []) else
      var (n1, out1) := HandledAll(n, msgs[..|msgs| - 1], now);
      var (n2, out2) := Handled(n1, msgs[|msgs| - 1], now);
      (n2, out1 + out2)
  }

  /** `handle_swim_msg`, the live handler: the new state and at most one reply. */
  function HandledLive(n: Node, msg: Message, now: nat): (Node, Option<Message>)
  {
    match msg
    case AckMsg(x, _, inc) => (AfterAlive(n, x, inc), None)
    case PingMsg(x, nonce, piggyback) =>
      var n' := HandledAll(AfterAlive(n, x, 0), piggyback, now).0;
      (n', Some(AckMsg(n'.id, nonce, n'.incarnation)))
    case AliveMsg(x, inc) => (AfterAlive(n, x, inc), None)
    case SuspectMsg(x, inc, _) => (AfterSuspect(n, x, inc, now), None)
    case DeadMsg(x, inc, _) => (AfterDead(n, x, inc), None)
    case JoinMsg(x) => (AfterAlive(n, x, 0), Some(AliveMsg(n.id, n.incarnation)))
    case OtherMsg => (n, None)
  }

  /** Time since an instant; zero if it lies in the future. */
  function Elapsed(now: nat, since: nat): nat { if now >= since then now - since else 0 }

  predicate Expired(m: MemberState, now: nat, timeout: nat)
  {
    m.Suspect? && Elapsed(now, m.since) >= timeout
  }

  /** The table after a tick: every expired suspect is dead at its own incarnation. */
  function AfterTick(n: Node, now: nat, timeout: nat): Node
  {
    n.(members := map x | x in n.members ::
         if Expired(n.members[x], now, timeout) then Dead(n.members[x].incarnation) else n.members[x])
  }

  function LastKnown(n: Node, x: NodeId): nat
  {
    if x in n.members then n.members[x].incarnation else 0
  }

  /** The gossip message for one table entry. */
  function Gossip(n: Node, x: NodeId): Message
    requires x in n.members
  {
    match n.members[x]
    case Alive(i) => AliveMsg(x, i)
    case Suspect(i, _) => SuspectMsg(x, i, n.id)
    case Dead(i) => DeadMsg(x, i, n.id)
  }

  predicate IsGossip(n: Node, msg: Message)
  {
    (msg.AliveMsg? || msg.SuspectMsg? || msg.DeadMsg?) && msg.node in n.members && msg == Gossip(n, msg.node)
  }

  // ----- the table as the source updates it -----

  class SwimMembership {
    const localId: NodeId
    var members: map<NodeId, MemberState>
    var incarnation: nat
    var probeNonce: nat

    function State(): Node
      reads this
    {
      Node(localId, members, incarnation)
    }

    ghost predicate Valid()
      reads this
    {
      localId !in members
    }

    constructor (localId: NodeId)
      ensures Valid() && State() == Node(localId, map[], 0)
    {
      this.localId := localId;
      members := map[];
      incarnation := 0;
      probeNonce := 0;
    }

    method MarkAlive(x: NodeId, inc: nat)
      requires Valid()
      modifies this`members, this`incarnation
      ensures Valid() && State() == AfterAlive(old(State()), x, inc)
    {
      if x == localId {
        return;
      }
      if x in members {
        var dominated := match members[x]
          case Alive(i) => inc <= i
          case Suspect(i, _) => inc < i
          case Dead(i) => inc <= i;
        if !dominated {
          members := members[x := Alive(inc)];
        }
      } else {
        members := members[x := Alive(inc)];
      }
    }

    method MarkSuspect(x: NodeId, inc: nat, now: nat)
      requires Valid()
      modifies this`members, this`incarnation
      ensures Valid() && State() == AfterSuspect(old(State()), x, inc, now)
    {
      if x == localId {
        incarnation := incarnation + 1;
        return;
      }
      if x in members {
        var shouldUpdate := match members[x]
          case Alive(i) => inc >= i
          case Suspect(i, _) => inc > i
          case Dead(_) => false;
        if shouldUpdate {
          members := members[x := Suspect(inc, now)];
        }
      } else {
        members := members[x := Suspect(inc, now)];
      }
    }

    method MarkDead(x: NodeId, inc: nat)
      requires Valid()
      modifies this`members, this`incarnation
      ensures Valid() && State() == AfterDead(old(State()), x, inc)
    {
      if x == localId {
        return;
      }
      if x in members {
        var shouldUpdate := match members[x]
          case Dead(i) => inc > i
          case _ => true;
        if shouldUpdate {
          members := members[x := Dead(inc)];
        }
      } else {
        members := members[x := Dead(inc)];
      }
    }

    method HandleMessage(msg: Message, now: nat) returns (responses: seq<Message>)
      requires Valid()
      modifies this`members, this`incarnation
      ensures Valid()
      ensures (State(), responses) == Handled(old(State()), msg, now)
      decreases msg
    {
      responses := [];
      match msg
      case JoinMsg(x) =>
        MarkAlive(x, 0);
        responses := [AliveMsg(localId, incarnation)];
      case AliveMsg(x, inc) =>
        MarkAlive(x, inc);
        responses := [msg];
      case SuspectMsg(x, inc, _) =>
        MarkSuspect(x, inc, now);
        responses := [msg];
      case DeadMsg(x, inc, _) =>
        MarkDead(x, inc);
        responses := [msg];
      case PingMsg(_, nonce, piggyback) =>
        for i := 0 to |piggyback|
          invariant Valid() && (State(), responses) == HandledAll(old(State()), piggyback[..i], now)
        {
          var sub := HandleMessage(piggyback[i], now);
          responses := responses + sub;
          assert piggyback[..i + 1][..i] == piggyback[..i];
        }
        assert piggyback[..|piggyback|] == piggyback;
        responses := responses + [AckMsg(localId, nonce, incarnation)];
      case AckMsg(x, _, inc) =>
        MarkAlive(x, inc);
      case OtherMsg =>
    }

    method HandleSwimMsg(msg: Message, now: nat) returns (reply: Option<Message>)
      requires Valid()
      modifies this`members, this`incarnation
      ensures Valid()
      ensures (State(), reply) == HandledLive(old(State()), msg, now)
    {
      match msg
      case AckMsg(x, _, inc) =>
        MarkAlive(x, inc);
        reply := None;
      case PingMsg(x, nonce, piggyback) =>
        MarkAlive(x, 0);
        ghost var n := State();
        ghost var out := [];
        for i := 0 to |piggyback|
          invariant Valid() && (State(), out) == HandledAll(n, piggyback[..i], now)
        {
          var sub := HandleMessage(piggyback[i], now);
          out := out + sub;
          assert piggyback[..i + 1][..i] == piggyback[..i];
        }
        assert piggyback[..|piggyback|] == piggyback;
        reply := Some(AckMsg(localId, nonce, incarnation));
      case AliveMsg(x, inc) =>
        MarkAlive(x, inc);
        reply := None;
      case SuspectMsg(x, inc, _) =>
        MarkSuspect(x, inc, now);
        reply := None;
      case DeadMsg(x, inc, _) =>
        MarkDead(x, inc);
        reply := None;
      case JoinMsg(x) =>
        MarkAlive(x, 0);
        reply := Some(AliveMsg(localId, incarnation));
      case OtherMsg =>
        reply := None;
    }

    /** The scan of a tick, over the table in any order. */
    method FindExpired(now: nat, timeout: nat) returns (found: seq<(NodeId, nat)>)
      ensures forall x, i :: (x, i) in found <==>
                x in members && Expired(members[x], now, timeout) && i == members[x].incarnation
    {
      var rest := members.Keys;
      found := [];
      while rest != {}
        invariant rest <= members.Keys
        invariant forall x, i :: (x, i) in found <==>
                    x in members.Keys - rest && Expired(members[x], now, timeout) && i == members[x].incarnation
      {
        var x :| x in rest;
        if members[x].Suspect? && Elapsed(now, members[x].since) >= timeout {
          found := found + [(x, members[x].incarnation)];
        }
        rest := rest - {x};
      }
    }

    /** Step 1 of `protocol_tick`: scan, then one `mark_dead` per entry found. */
    method ExpireSuspects(now: nat, timeout: nat)
      requires Valid()
      modifies this`members, this`incarnation
      ensures Valid() && State() == AfterTick(old(State()), now, timeout)
    {
      var found := FindExpired(now, timeout);
      ghost var n := State();
      ghost var goal := AfterTick(n, now, timeout).members;
      for i := 0 to |found|
        invariant Valid() && members.Keys == goal.Keys && incarnation == n.incarnation
        invariant forall x :: x in members ==> members[x] == if x in Named(found[..i]) then goal[x] else n.members[x]
      {
        assert found[i] in found;
        assert found[..i + 1] == found[..i] + [found[i]];
        MarkDead(found[i].0, found[i].1);
      }
      forall x | x in members ensures members[x] == goal[x] {
        if Expired(n.members[x], now, timeout) {
          assert (x, n.members[x].incarnation) in found[..|found|];
        }
      }
    }

    /** Every member once, live ones first, then suspects, then the dead. */
    method RankedMembers() returns (order: seq<NodeId>)
      ensures IsRanking(members, order, members.Keys)
    {
      order := [];
      var rest := members.Keys;
      while rest != {}
        invariant rest <= members.Keys && IsRanking(members, order, members.Keys - rest)
        invariant forall i, y :: 0 <= i < |order| && y in rest ==> Rank(members[order[i]]) <= Rank(members[y])
        decreases rest
      {
        ghost var w := LowestRank(members, rest);
        var x :| x in rest && forall y :: y in rest ==> Rank(members[x]) <= Rank(members[y]);
        order := order + [x];
        rest := rest - {x};
      }
    }

    /** Gossip for the first `limit` members of a ranking. */
    method CollectGossip(limit: nat) returns (msgs: seq<Message>)
      ensures exists order :: GossipOf(State(), order, limit, msgs)
    {
      var ranked := RankedMembers();
      msgs := [];
      for i := 0 to if limit < |ranked| then limit else |ranked|
        invariant |msgs| == i
        invariant forall j :: 0 <= j < i ==> ranked[j] in members && msgs[j] == Gossip(State(), ranked[j])
      {
        msgs := msgs + [Gossip(State(), ranked[i])];
      }
      assert GossipOf(State(), ranked, limit, msgs);
    }

    /** A whole tick: expire suspects, then ping one live member with gossip about the new table. */
    method ProtocolTick(now: nat, timeout: nat, gossipCount: nat) returns (probe: Option<(NodeId, Message)>)
      requires Valid()
      modifies this
      ensures Valid() && State() == AfterTick(old(State()), now, timeout)
      ensures probe.None? <==> forall x :: x in members ==> !members[x].Alive?
      ensures probe.Some? ==>
                && probe.value.0 in members && members[probe.value.0].Alive?
                && probe.value.1.PingMsg? && probe.value.1.sender == localId
                && probe.value.1.nonce == old(probeNonce) && probeNonce == old(probeNonce) + 1
                && exists order :: GossipOf(State(), order, gossipCount, probe.value.1.piggyback)
      ensures probe.None? ==> probeNonce == old(probeNonce)
    {
      ExpireSuspects(now, timeout);
      var alive := set x | x in members && members[x].Alive?;
      if alive == {} {
        assert forall x :: x in members && members[x].Alive? ==> x in alive;
        return None;
      }
      var target :| target in alive;
      var piggyback := CollectGossip(gossipCount);
      var nonce := probeNonce;
      probeNonce := probeNonce + 1;
      probe := Some((target, PingMsg(localId, nonce, piggyback)));
    }
  }

  function Rank(m: MemberState): nat
  {
    match m
    case Alive(_) => 0
    case Suspect(_, _) => 1
    case Dead(_) => 2
  }

  /** `order` lists the nodes of `keys`, each once, in order of rank. */
  ghost predicate IsRanking(members: map<NodeId, MemberState>, order: seq<NodeId>, keys: set<NodeId>)
  {
    && keys <= members.Keys
    && (forall x :: x in keys <==> x in order)
    && (forall i, j :: 0 <= i < j < |order| ==>
          && order[i] != order[j] && order[i] in members && order[j] in members
          && Rank(members[order[i]]) <= Rank(members[order[j]]))
  }

  /** `msgs` is the gossip of the first `limit` nodes of the ranking `order`. */
  ghost predicate GossipOf(n: Node, order: seq<NodeId>, limit: nat, msgs: seq<Message>)
  {
    && IsRanking(n.members, order, n.members.Keys)
    && |msgs| == (if limit < |order| then limit else |order|)
    && forall i :: 0 <= i < |msgs| ==> order[i] in n.members && msgs[i] == Gossip(n, order[i])
  }

  lemma {:induction false} LowestRank(members: map<NodeId, MemberState>, rest: set<NodeId>) returns (x: NodeId)
    requires rest != {} && rest <= members.Keys
    ensures x in rest && forall y :: y in rest ==> Rank(members[x]) <= Rank(members[y])
    decreases rest
  {
    x :| x in rest;
    if rest != {x} {
      var y := LowestRank(members, rest - {x});
      if Rank(members[y]) < Rank(members[x]) { x := y; }
    }
  }

  ghost function Named(found: seq<(NodeId, nat)>): set<NodeId>
  {
    set d | d in found :: d.0
  }
}
