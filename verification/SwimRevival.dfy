/**
 When a node that no peer holds alive can still come back, over the addressed network
 of `SwimNetwork`.
 */
module SwimRevival {
  import opened Swim
  import opened SwimNetwork
  import opened Wrappers
  import SwimLocal
  import SwimSystem

  // ----- who can still be reached -----

  /** Taking a claim that its node is alive at j leaves the record Alive. */
  predicate Clears(r: Option<MemberState>, j: nat)
  {
    r.None? || r.value.Alive? || !AliveDominated(r.value, j)
  }

  /** A packet on its way to q says c about x. */
  ghost predicate Coming(s: State, q: NodeId, x: NodeId, c: Message)
  {
    exists pk :: pk in s.network && pk.to == q && Said(pk.msg, x) == Some(c)
  }

  /** The gossip of a ping still to be sent to q says c about x. */
  ghost predicate Gathered(s: State, q: NodeId, x: NodeId, c: Message)
  {
    exists r :: r in s.ticks && s.ticks[r].target == q && Find(s.ticks[r].gathered, x) == Some(c)
  }

  ghost predicate AliveComing(s: State, q: NodeId, x: NodeId, j: nat)
  {
    Coming(s, q, x, AliveMsg(x, j)) || Gathered(s, q, x, AliveMsg(x, j))
  }

  ghost predicate AimedAt(s: State, p: NodeId, q: NodeId)
  {
    p in s.ticks && s.ticks[p].target == q
  }

  /** x can be made to tell p its counter: p has pinged it, is about to, or has it for a bootstrap peer. */
  ghost predicate Answers(s: State, x: NodeId, p: NodeId)
  {
    PingSent(s, p, x) || AimedAt(s, p, x) || (p, x) in s.contacts
  }

  /** A suspicion of x is on its way to x, or gathered for a ping to it. */
  ghost predicate Accused(s: State, x: NodeId)
  {
    || (exists pk :: pk in s.network && pk.to == x && SwimLocal.Accuses(pk.msg, x))
    || (exists r :: r in s.ticks && s.ticks[r].target == x && Suspects(s.ticks[r].gathered, x))
  }

  predicate Suspects(msgs: seq<Message>, x: NodeId)
  {
    Find(msgs, x).Some? && Find(msgs, x).value.SuspectMsg?
  }

  lemma AccusesIff(msgs: seq<Message>, p: NodeId, x: NodeId)
    requires IsDigest(msgs, p)
    ensures SwimLocal.SomeAccuses(msgs, x) <==> Suspects(msgs, x)
  {
    FindIff(msgs, x);
    forall i | 0 <= i < |msgs| && SwimLocal.Accuses(msgs[i], x) ensures Find(msgs, x) == Some(msgs[i]) {
      var c := Find(msgs, x).value;
      var j :| 0 <= j < |msgs| && msgs[j] == c;
    }
  }

  ghost predicate DeathComing(s: State, x: NodeId, p: NodeId, d: nat)
  {
    exists who :: Coming(s, x, p, DeadMsg(p, d, who)) || (x, DeadMsg(p, d, who)) in s.pending
  }

  /** A claim that p is alive at a, dominated by x's suspicion of p, gets through once an older death claim, which
      replaces any suspicion, has come first. */
  ghost predicate Lowered(s: State, x: NodeId, p: NodeId, a: nat)
    requires x in s.nodes
  {
    var r := Record(s.nodes[x], p);
    r.Some? && r.value.Suspect? && exists d: nat :: d < a && DeathComing(s, x, p, d)
  }

  /** x holds p alive, or what is on its way to x can make it. */
  ghost predicate CanHold(s: State, x: NodeId, p: NodeId)
    requires x in s.nodes
  {
    || HoldsAlive(s.nodes[x], p)
    || exists a: nat :: Coming(s, x, p, AliveMsg(p, a)) && (Clears(Record(s.nodes[x], p), a) || Lowered(s, x, p, a))
  }

  /** x can make itself heard at p, by a join or a ping, which claim incarnation zero. */
  ghost predicate Calls(s: State, x: NodeId, p: NodeId)
    requires x in s.nodes
  {
    (x, p) in s.contacts || PingSent(s, x, p) || AimedAt(s, x, p) || CanHold(s, x, p)
  }

  /** Nothing that can reach p makes it hold x alive. */
  ghost predicate Shut(s: State, x: NodeId, p: NodeId)
    requires x in s.nodes && p in s.nodes
  {
    var r := Record(s.nodes[p], x);
    && !HoldsAlive(s.nodes[p], x)
    && (Answers(s, x, p) ==> !Clears(r, s.nodes[x].incarnation) && !Accused(s, x))
    && (Calls(s, x, p) ==> !Clears(r, 0))
    && (forall j: nat :: AliveComing(s, p, x, j) ==> !Clears(r, j) && (r.value.Suspect? ==> j == 0))
  }

  /** No peer admits x at incarnation zero. */
  ghost predicate Firm(s: State, x: NodeId)
  {
    forall p :: p in s.nodes && p != x ==> !Clears(Record(s.nodes[p], x), 0)
  }

  /** No ping to x is in the making. */
  ghost predicate Spared(s: State, x: NodeId)
  {
    forall p :: p in s.ticks ==> s.ticks[p].target != x
  }

  /** Nothing that can reach any peer makes it hold x alive, and no more can come to reach one: what a ping in the
      making may yet tell x serves it only at a peer that admits it at incarnation zero. */
  ghost predicate CutOff(s: State, x: NodeId)
  {
    && x in s.nodes && (forall p :: p in s.nodes && p != x ==> Shut(s, x, p))
    && (Firm(s, x) || Spared(s, x))
  }

  // ----- a node that is cut off stays so -----

  ghost predicate TakesClaim(r: Option<MemberState>, c: Message, r': Option<MemberState>)
  {
    exists now :: r' == Updated(r, c, now)
  }

  /** From s to s' everything but p's record of x is as shut as it was. */
  ghost predicate Steady(s: State, s': State, x: NodeId, p: NodeId)
    requires x in s.nodes && x in s'.nodes && p in s.nodes && p in s'.nodes
  {
    var c := s.nodes[x].incarnation;
    && (s'.nodes[x].incarnation == c || Accused(s, x))
    && (Answers(s', x, p) ==> Answers(s, x, p))
    && (Accused(s', x) ==> Accused(s, x))
    && (Calls(s', x, p) ==> Calls(s, x, p) || Answers(s, x, p) || !Clears(Record(s.nodes[p], x), 0))
    && (forall j: nat :: AliveComing(s', p, x, j) ==>
          AliveComing(s, p, x, j) || (j == 0 && Calls(s, x, p)) || (j == c && Answers(s, x, p)))
  }

  /** p's record of x after a claim that can reach it. */
  ghost predicate Reached(s: State, x: NodeId, p: NodeId, r': Option<MemberState>)
    requires x in s.nodes && p in s.nodes
  {
    var r := Record(s.nodes[p], x);
    || r' == r
    || exists c :: && TakesClaim(r, c, r') && IsAbout(c, x)
                   && if c.AliveMsg? then AliveComing(s, p, x, c.incarnation)
                      else c.incarnation <= s.nodes[x].incarnation
  }

  lemma ShutStays(s: State, s': State, x: NodeId, p: NodeId)
    requires Sound(s) && x in s.nodes && p in s.nodes && x in s'.nodes && p in s'.nodes && x != p
    requires Shut(s, x, p) && Steady(s, s', x, p) && Reached(s, x, p, Record(s'.nodes[p], x))
    ensures Shut(s', x, p)
    ensures !Clears(Record(s.nodes[p], x), 0) ==> !Clears(Record(s'.nodes[p], x), 0)
  {
    var r, r', c := Record(s.nodes[p], x), Record(s'.nodes[p], x), s.nodes[x].incarnation;
    assert SwimSystem.NodeWithin(SwimSystem.Counters(Forget(s)), s.nodes[p]);
    assert r.Some? ==> r.value.incarnation <= c;
    assert !HoldsAlive(s'.nodes[p], x);
    if Answers(s, x, p) { assert r == Some(Dead(c)) && r' == r; }
  }

  lemma AnswersStays(s: State, st: Step, x: NodeId, p: NodeId)
    requires Sound(s) && Enabled(s, st) && x in s.nodes && p in s.nodes && p != x && Shut(s, x, p)
    ensures Answers(After(s, st), x, p) ==> Answers(s, x, p)
  {
  }

  lemma SparedStays(s: State, st: Step, x: NodeId)
    requires Sound(s) && Enabled(s, st) && CutOff(s, x) && Spared(s, x)
    ensures Spared(After(s, st), x)
  {
    assert forall p :: p in s.nodes && p != x ==> Shut(s, x, p);
  }

  /** What a step adds to the gossip of a tick is what the table holds. */
  lemma TickGathers(s: State, st: Step, r: NodeId, x: NodeId)
    requires Enabled(s, st) && r in After(s, st).ticks && Find(After(s, st).ticks[r].gathered, x).Some?
    ensures r in s.ticks && s.ticks[r].target == After(s, st).ticks[r].target
    ensures var c := Find(After(s, st).ticks[r].gathered, x);
            || Find(s.ticks[r].gathered, x) == c
            || (r in s.nodes && x in s.nodes[r].members && c == Some(Gossip(s.nodes[r], x)))
  {
    if st.Gather? && st.p == r {
      var g := s.ticks[r].gathered;
      assert (g + [Gossip(s.nodes[r], st.x)])[..|g|] == g;
    } else if !st.Aim? || st.p != r {
      assert After(s, st).ticks[r] == s.ticks[r];
    }
  }

  /** The gossip of a ping to x holds no suspicion of x and gains none. */
  lemma TickAccusesNot(s: State, st: Step, r: NodeId, x: NodeId)
    requires Sound(s) && Enabled(s, st) && CutOff(s, x) && AimedAt(After(s, st), r, x)
    ensures !Suspects(After(s, st).ticks[r].gathered, x)
  {
    if Find(After(s, st).ticks[r].gathered, x).Some? {
      TickGathers(s, st, r, x);
      assert Shut(s, x, r) && Answers(s, x, r);
      assert SwimSystem.NodeWithin(SwimSystem.Counters(Forget(s)), s.nodes[r]);
    }
  }

  /** A packet that newly accuses x was gathered as such. */
  lemma NewAccusation(s: State, st: Step, x: NodeId, pk: Packet)
    requires Sound(s) && Enabled(s, st) && pk in After(s, st).network && pk !in s.network
    requires pk.to == x && SwimLocal.Accuses(pk.msg, x)
    ensures Accused(s, x)
  {
    match st
    case Deliver(packet, now) =>
    case SendPing(r, nonce) =>
      AccusesIff(s.ticks[r].gathered, r, x);
    case _ =>
  }

  lemma AccusedStays(s: State, st: Step, x: NodeId)
    requires Sound(s) && Enabled(s, st) && CutOff(s, x) && Accused(After(s, st), x)
    ensures Accused(s, x)
  {
    var s' := After(s, st);
    forall r | r in s'.ticks && s'.ticks[r].target == x ensures !Suspects(s'.ticks[r].gathered, x) {
      TickAccusesNot(s, st, r, x);
    }
    var pk :| pk in s'.network && pk.to == x && SwimLocal.Accuses(pk.msg, x);
    if pk !in s.network { NewAccusation(s, st, x, pk); }
  }

  lemma CounterStays(s: State, st: Step, x: NodeId)
    requires Sound(s) && Enabled(s, st) && x in s.nodes
    ensures After(s, st).nodes[x].incarnation == s.nodes[x].incarnation || Accused(s, x)
  {
    if st.Deliver? && st.packet.to == x {
      assert s.nodes[x].id == x;
      SwimLocal.LiveCounterRisesIff(s.nodes[x], st.packet.msg, st.now);
    }
  }

  /** A packet that newly tells p that x is alive. */
  lemma NewClaimOfLife(s: State, st: Step, x: NodeId, p: NodeId, pk: Packet, j: nat)
    requires Sound(s) && Enabled(s, st) && x in s.nodes && p in s.nodes && p != x && Shut(s, x, p)
    requires pk in After(s, st).network && pk !in s.network && pk.to == p && Said(pk.msg, x) == Some(AliveMsg(x, j))
    ensures AliveComing(s, p, x, j) || (j == 0 && Calls(s, x, p)) ||
            (j == s.nodes[x].incarnation && Answers(s, x, p))
  {
    match st
    case Deliver(packet, now) =>
      NewAnswer(s, packet, now, x, p, pk, j);
    case SendPing(r, _) =>
      if r != x { assert Gathered(s, p, x, AliveMsg(x, j)); }
    case SendProbe(r, _, _) =>
    case _ =>
  }

  lemma NewAnswer(s: State, packet: Packet, now: nat, x: NodeId, p: NodeId, pk: Packet, j: nat)
    requires Sound(s) && Enabled(s, Deliver(packet, now)) && x in s.nodes && p in s.nodes && p != x && Shut(s, x, p)
    requires pk in Replies(packet, HandledLive(s.nodes[packet.to], packet.msg, now).1)
    requires pk.to == p && Said(pk.msg, x) == Some(AliveMsg(x, j))
    ensures j == s.nodes[x].incarnation && Answers(s, x, p)
  {
    assert Warranted(s, packet) && s.nodes[packet.to].id == packet.to;
    SwimLocal.LiveCounterRisesIff(s.nodes[packet.to], packet.msg, now);
    assert packet.to == x && packet.from == p;
    assert Answers(s, x, p);
  }

  lemma ClaimOfLifeStays(s: State, st: Step, x: NodeId, p: NodeId, j: nat)
    requires Sound(s) && Enabled(s, st) && CutOff(s, x) && p in s.nodes && p != x && AliveComing(After(s, st), p, x, j)
    ensures AliveComing(s, p, x, j) || (j == 0 && Calls(s, x, p)) ||
            (j == s.nodes[x].incarnation && Answers(s, x, p))
  {
    var s' := After(s, st);
    if Coming(s', p, x, AliveMsg(x, j)) {
      var pk :| pk in s'.network && pk.to == p && Said(pk.msg, x) == Some(AliveMsg(x, j));
      if pk !in s.network { NewClaimOfLife(s, st, x, p, pk, j); }
    } else {
      var r :| r in s'.ticks && s'.ticks[r].target == p && Find(s'.ticks[r].gathered, x) == Some(AliveMsg(x, j));
      assert s.nodes[r].id == r && r !in s.nodes[r].members;
      assert r != x ==> Shut(s, x, r);
      GatheredStays(s, st, x, p, r, j);
    }
  }

  lemma GatheredStays(s: State, st: Step, x: NodeId, p: NodeId, r: NodeId, j: nat)
    requires Enabled(s, st) && r in s.nodes && s.nodes[r].id == r && r !in s.nodes[r].members
    requires r != x ==> !HoldsAlive(s.nodes[r], x)
    requires AimedAt(After(s, st), r, p) && Find(After(s, st).ticks[r].gathered, x) == Some(AliveMsg(x, j))
    ensures Gathered(s, p, x, AliveMsg(x, j))
  {
    TickGathers(s, st, r, x);
    assert r in s.ticks && s.ticks[r].target == p && Find(s.ticks[r].gathered, x) == Some(AliveMsg(x, j));
  }

  // ----- what x can come to hold of p -----

  /** A packet to x that newly says something about p: p is a contact, or answers a call of x. */
  lemma NewsOfPeer(s: State, st: Step, x: NodeId, p: NodeId, pk: Packet)
    requires Sound(s) && Enabled(s, st) && CutOff(s, x) && Spared(s, x) && p in s.nodes && p != x
    requires pk in After(s, st).network && pk !in s.network && pk.to == x && Said(pk.msg, p).Some?
    ensures Calls(s, x, p) || Answers(s, x, p)
  {
    assert forall r :: r in s.nodes && r != x ==> Shut(s, x, r);
    match st
    case Deliver(packet, now) =>
      SwimLocal.LiveCounterRisesIff(s.nodes[packet.to], packet.msg, now);
      assert Warranted(s, packet);
    case _ =>
  }

  /** x's record of p after a claim that can reach it. */
  ghost predicate Heard(s: State, x: NodeId, p: NodeId, r': Option<MemberState>)
    requires x in s.nodes
  {
    var r := Record(s.nodes[x], p);
    || r' == r
    || exists c :: && TakesClaim(r, c, r') && IsAbout(c, p)
                   && (c.AliveMsg? ==> Coming(s, x, p, c))
                   && (c.DeadMsg? ==> DeathComing(s, x, p, c.incarnation))
  }

  lemma HoldStays(s: State, s': State, x: NodeId, p: NodeId)
    requires x in s.nodes && x in s'.nodes && !CanHold(s, x, p) && Heard(s, x, p, Record(s'.nodes[x], p))
    requires forall a: nat :: Coming(s', x, p, AliveMsg(p, a)) ==> Coming(s, x, p, AliveMsg(p, a))
    requires forall d: nat :: DeathComing(s', x, p, d) && !DeathComing(s, x, p, d) ==>
               Record(s.nodes[x], p).Some? && d == Record(s.nodes[x], p).value.incarnation
    ensures !CanHold(s', x, p)
  {
    var r, r' := Record(s.nodes[x], p), Record(s'.nodes[x], p);
    assert forall a: nat :: Coming(s, x, p, AliveMsg(p, a)) ==> !Clears(r, a) && !Lowered(s, x, p, a);
    if r' != r {
      var c :| && TakesClaim(r, c, r') && IsAbout(c, p)
               && (c.AliveMsg? ==> Coming(s, x, p, c))
               && (c.DeadMsg? ==> DeathComing(s, x, p, c.incarnation));
      if c.AliveMsg? { assert c == AliveMsg(p, c.incarnation); }
      assert !HoldsAlive(s'.nodes[x], p);
    }
    forall a: nat | Coming(s', x, p, AliveMsg(p, a)) ensures !Clears(r', a) && !Lowered(s', x, p, a) {
      assert Coming(s, x, p, AliveMsg(p, a));
    }
  }

  /** Handling a packet, or applying a pending claim, changes a record by a claim that was on its way. */
  lemma StepHears(s: State, st: Step, x: NodeId, p: NodeId)
    requires Sound(s) && Enabled(s, st) && x in s.nodes && p != x
    ensures Heard(s, x, p, Record(After(s, st).nodes[x], p))
  {
    var r, r' := Record(s.nodes[x], p), Record(After(s, st).nodes[x], p);
    if st.Deliver? && st.packet.to == x {
      var msg := st.packet.msg;
      assert Warranted(s, st.packet);
      RecordAfterLive(s.nodes[x], msg, st.now, st.packet.from, p);
      if msg.PingMsg? { FindIff(msg.piggyback, p); }
      if Said(msg, p).Some? {
        var c := Said(msg, p).value;
        assert r' == Updated(r, c, st.now) && Coming(s, x, p, c);
        if c.DeadMsg? { assert c == DeadMsg(p, c.incarnation, c.reporter); }
        assert TakesClaim(r, c, r');
      }
    } else if (st.ApplySuspect? || st.ApplyDead?) && st.p == x {
      OwnClaimHeard(s, st, x, p);
    }
  }

  lemma OwnClaimHeard(s: State, st: Step, x: NodeId, p: NodeId)
    requires Enabled(s, st) && (st.ApplySuspect? || st.ApplyDead?) && st.p == x && p != x && s.nodes[x].id == x
    ensures Heard(s, x, p, Record(After(s, st).nodes[x], p))
  {
    var r, r', c := Record(s.nodes[x], p), Record(After(s, st).nodes[x], p), st.claim;
    if c.node == p {
      if c.DeadMsg? { assert c == DeadMsg(p, c.incarnation, c.reporter); }
      assert r' == Updated(r, c, if st.ApplySuspect? then st.now else 0);
      assert TakesClaim(r, c, r');
    }
  }

  lemma NoNewHold(s: State, st: Step, x: NodeId, p: NodeId)
    requires Sound(s) && Enabled(s, st) && CutOff(s, x) && Spared(s, x) && p in s.nodes && p != x
    requires !Calls(s, x, p) && !Answers(s, x, p)
    ensures !CanHold(After(s, st), x, p)
  {
    var s' := After(s, st);
    forall c | Coming(s', x, p, c) ensures Coming(s, x, p, c) {
      var pk :| pk in s'.network && pk.to == x && Said(pk.msg, p) == Some(c);
      if pk !in s.network { NewsOfPeer(s, st, x, p, pk); }
    }
    StepHears(s, st, x, p);
    HoldStays(s, s', x, p);
  }

  lemma CallsStays(s: State, st: Step, x: NodeId, p: NodeId)
    requires Sound(s) && Enabled(s, st) && CutOff(s, x) && p in s.nodes && p != x
    requires Calls(After(s, st), x, p)
    ensures Calls(s, x, p) || Answers(s, x, p) || !Clears(Record(s.nodes[p], x), 0)
  {
    if Spared(s, x) && !Calls(s, x, p) && !Answers(s, x, p) { NoNewHold(s, st, x, p); }
  }

  lemma ClaimsWithin(s: State, pk: Packet, x: NodeId)
    requires Sound(s) && x in s.nodes && pk in s.network && Said(pk.msg, x).Some?
    ensures var c := Said(pk.msg, x).value; IsAbout(c, x) && c.incarnation <= s.nodes[x].incarnation
  {
    assert pk.msg in Forget(s).network && Warranted(s, pk);
    var counters := SwimSystem.Counters(Forget(s));
    assert SwimSystem.MsgWithin(counters, pk.msg);
    if pk.msg.PingMsg? && pk.msg.sender != x {
      FindIff(pk.msg.piggyback, x);
      assert SwimSystem.MsgWithin(counters, Said(pk.msg, x).value);
    }
  }

  lemma StepReaches(s: State, st: Step, x: NodeId, p: NodeId)
    requires Sound(s) && Enabled(s, st) && x in s.nodes && p in s.nodes && p != x
    ensures Reached(s, x, p, Record(After(s, st).nodes[p], x))
  {
    var r, r' := Record(s.nodes[p], x), Record(After(s, st).nodes[p], x);
    if st.Deliver? && st.packet.to == p {
      var msg := st.packet.msg;
      assert Warranted(s, st.packet);
      RecordAfterLive(s.nodes[p], msg, st.now, st.packet.from, x);
      if Said(msg, x).Some? {
        var c := Said(msg, x).value;
        ClaimsWithin(s, st.packet, x);
        assert r' == Updated(r, c, st.now) && Coming(s, p, x, c);
        if c.AliveMsg? { assert c == AliveMsg(x, c.incarnation); }
        assert TakesClaim(r, c, r');
      }
    } else if (st.ApplySuspect? || st.ApplyDead?) && st.p == p && st.claim.node == x {
      assert (p, st.claim) in Forget(s).pending + Forget(s).drafts;
      assert r' == Updated(r, st.claim, if st.ApplySuspect? then st.now else 0);
      assert TakesClaim(r, st.claim, r');
    }
  }

  lemma StepStaysCutOff(s: State, st: Step, x: NodeId)
    requires Sound(s) && Enabled(s, st) && CutOff(s, x)
    ensures CutOff(After(s, st), x)
  {
    var s' := After(s, st);
    if Spared(s, x) { SparedStays(s, st, x); }
    forall p | p in s'.nodes && p != x
      ensures Shut(s', x, p) && (Firm(s, x) ==> !Clears(Record(s'.nodes[p], x), 0))
    {
      AnswersStays(s, st, x, p);
      if Accused(s', x) { AccusedStays(s, st, x); }
      CounterStays(s, st, x);
      if Calls(s', x, p) { CallsStays(s, st, x, p); }
      forall j: nat | AliveComing(s', p, x, j)
        ensures AliveComing(s, p, x, j) || (j == 0 && Calls(s, x, p)) ||
                (j == s.nodes[x].incarnation && Answers(s, x, p))
      {
        ClaimOfLifeStays(s, st, x, p, j);
      }
      StepReaches(s, st, x, p);
      ShutStays(s, s', x, p);
    }
  }

  /** Some other node holds x alive. */
  ghost predicate AliveAtPeer(s: State, x: NodeId)
  {
    exists p :: p in s.nodes && p != x && HoldsAlive(s.nodes[p], x)
  }

  /** A node that is cut off is held alive by no peer, then or in any continuation. */
  lemma {:induction false} CutOffForever(run: seq<State>, steps: seq<Step>, a: nat, b: nat, x: NodeId)
    requires IsRun(run, steps) && a <= b < |run| && CutOff(run[a], x)
    ensures CutOff(run[b], x) && !AliveAtPeer(run[b], x)
    decreases b
  {
    if a < b {
      CutOffForever(run, steps, a, b - 1, x);
      RunIsSound(run, steps, b - 1);
      assert Follows(run, steps, b - 1);
      StepStaysCutOff(run[b - 1], steps[b - 1], x);
    }
    CutOffIsNotAlive(run[b], x);
  }

  lemma CutOffIsNotAlive(s: State, x: NodeId)
    requires CutOff(s, x)
    ensures !AliveAtPeer(s, x)
  {
    assert forall p :: p in s.nodes && p != x ==> Shut(s, x, p);
  }

  // ----- a node that is not cut off can come back -----

  ghost predicate Continues(run: seq<State>, steps: seq<Step>, run': seq<State>, steps': seq<Step>)
  {
    IsRun(run', steps') && run <= run' && steps <= steps'
  }

  lemma Extended(run: seq<State>, steps: seq<Step>, st: Step) returns (run': seq<State>, steps': seq<Step>)
    requires IsRun(run, steps) && Enabled(run[|steps|], st)
    ensures Continues(run, steps, run', steps')
    ensures |steps'| == |steps| + 1 && run'[|steps'|] == After(run[|steps|], st) && Sound(run'[|steps'|])
  {
    run', steps' := run + [After(run[|steps|], st)], steps + [st];
    forall i | 0 <= i < |steps'| ensures Follows(run', steps', i) {
      if i < |steps| { assert Follows(run, steps, i); }
    }
    RunIsSound(run', steps', |steps'|);
  }

  /** A packet that says x is alive, above what p's record admits, brings x back when delivered. */
  lemma DeliveryRevives(run: seq<State>, steps: seq<Step>, pk: Packet, x: NodeId, j: nat)
    returns (run': seq<State>, steps': seq<Step>)
    requires IsRun(run, steps) && pk in run[|steps|].network && pk.to in run[|steps|].nodes && pk.to != x
    requires Said(pk.msg, x) == Some(AliveMsg(x, j)) && Clears(Record(run[|steps|].nodes[pk.to], x), j)
    ensures Continues(run, steps, run', steps')
    ensures pk.to in run'[|steps'|].nodes && HoldsAlive(run'[|steps'|].nodes[pk.to], x)
    ensures run'[|steps'|].nodes.Keys == run[|steps|].nodes.Keys && run'[|steps'|].ticks == run[|steps|].ticks
    ensures forall q :: q in run[|steps|].nodes && q != pk.to ==> run'[|steps'|].nodes[q] == run[|steps|].nodes[q]
  {
    var s := run[|steps|];
    RunIsSound(run, steps, |steps|);
    assert Warranted(s, pk) && s.nodes[pk.to].id == pk.to;
    RecordAfterDelivery(s, pk, x);
    run', steps' := Extended(run, steps, Deliver(pk, 0));
  }

  /** x answers a ping or a join from p at its counter, which may have risen. */
  lemma ReplyRevives(run: seq<State>, steps: seq<Step>, x: NodeId, pk: Packet)
    returns (run': seq<State>, steps': seq<Step>)
    requires IsRun(run, steps) && pk in run[|steps|].network && (pk.msg.PingMsg? || pk.msg.JoinMsg?)
    requires pk.to == x && x in run[|steps|].nodes && pk.from in run[|steps|].nodes
    requires Clears(Record(run[|steps|].nodes[pk.from], x), run[|steps|].nodes[x].incarnation)
    ensures Continues(run, steps, run', steps') && AliveAtPeer(run'[|steps'|], x)
  {
    var s, p := run[|steps|], pk.from;
    RunIsSound(run, steps, |steps|);
    SwimLocal.LiveCounterRisesIff(s.nodes[x], pk.msg, 0);
    var reply := HandledLive(s.nodes[x], pk.msg, 0).1.value;
    var run1, steps1 := Extended(run, steps, Deliver(pk, 0));
    var s1 := run1[|steps1|];
    assert Said(reply, x) == Some(AliveMsg(x, reply.incarnation)) && reply.incarnation >= s.nodes[x].incarnation;
    assert Packet(x, p, reply) in s1.network && s1.nodes[p] == s.nodes[p];
    run', steps' := DeliveryRevives(run1, steps1, Packet(x, p, reply), x, reply.incarnation);
  }

  lemma AnswerRevives(run: seq<State>, steps: seq<Step>, x: NodeId, p: NodeId)
    returns (run': seq<State>, steps': seq<Step>)
    requires IsRun(run, steps) && x in run[|steps|].nodes && p in run[|steps|].nodes && p != x
    requires Answers(run[|steps|], x, p)
    requires Clears(Record(run[|steps|].nodes[p], x), run[|steps|].nodes[x].incarnation)
    ensures Continues(run, steps, run', steps') && AliveAtPeer(run'[|steps'|], x)
  {
    var s := run[|steps|];
    if PingSent(s, p, x) {
      var pk :| pk in s.network && pk.from == p && pk.to == x && pk.msg.PingMsg?;
      run', steps' := ReplyRevives(run, steps, x, pk);
    } else if AimedAt(s, p, x) {
      var run1, steps1 := Extended(run, steps, SendPing(p, 0));
      run', steps' := ReplyRevives(run1, steps1, x, Packet(p, x, PingMsg(p, 0, s.ticks[p].gathered)));
    } else {
      var run1, steps1 := Extended(run, steps, SendJoin(p, x));
      run', steps' := ReplyRevives(run1, steps1, x, Packet(p, x, JoinMsg(p)));
    }
  }

  lemma AnswersOn(s: State, st: Step, x: NodeId, p: NodeId)
    requires Enabled(s, st) && Answers(s, x, p)
    ensures Answers(After(s, st), x, p)
  {
    if AimedAt(s, p, x) && st.SendPing? && st.p == p {
      assert Packet(p, x, PingMsg(p, st.nonce, s.ticks[p].gathered)) in After(s, st).network;
    }
  }

  /** A suspicion of x lifts its counter above what any peer holds. */
  lemma SuspicionRouses(run: seq<State>, steps: seq<Step>, x: NodeId, p: NodeId, pk: Packet)
    returns (run': seq<State>, steps': seq<Step>)
    requires IsRun(run, steps) && x in run[|steps|].nodes && p in run[|steps|].nodes && p != x
    requires Answers(run[|steps|], x, p)
    requires pk in run[|steps|].network && pk.to == x && SwimLocal.Accuses(pk.msg, x)
    ensures Continues(run, steps, run', steps') && AliveAtPeer(run'[|steps'|], x)
  {
    var s := run[|steps|];
    RunIsSound(run, steps, |steps|);
    assert SwimSystem.NodeWithin(SwimSystem.Counters(Forget(s)), s.nodes[p]) && s.nodes[x].id == x;
    SwimLocal.LiveCounterRisesIff(s.nodes[x], pk.msg, 0);
    var run1, steps1 := Extended(run, steps, Deliver(pk, 0));
    var s1 := run1[|steps1|];
    assert s1.nodes[p] == s.nodes[p] && s1.nodes[x].incarnation > s.nodes[x].incarnation;
    AnswersOn(s, Deliver(pk, 0), x, p);
    run', steps' := AnswerRevives(run1, steps1, x, p);
  }

  lemma AccusationRouses(run: seq<State>, steps: seq<Step>, x: NodeId, p: NodeId)
    returns (run': seq<State>, steps': seq<Step>)
    requires IsRun(run, steps) && x in run[|steps|].nodes && p in run[|steps|].nodes && p != x
    requires Answers(run[|steps|], x, p) && Accused(run[|steps|], x)
    ensures Continues(run, steps, run', steps') && AliveAtPeer(run'[|steps'|], x)
  {
    var s := run[|steps|];
    RunIsSound(run, steps, |steps|);
    if pk :| pk in s.network && pk.to == x && SwimLocal.Accuses(pk.msg, x) {
      run', steps' := SuspicionRouses(run, steps, x, p, pk);
    } else {
      var r :| r in s.ticks && s.ticks[r].target == x && Suspects(s.ticks[r].gathered, x);
      var msg := PingMsg(r, 0, s.ticks[r].gathered);
      AccusesIff(s.ticks[r].gathered, r, x);
      var run1, steps1 := Extended(run, steps, SendPing(r, 0));
      AnswersOn(s, SendPing(r, 0), x, p);
      run', steps' := SuspicionRouses(run1, steps1, x, p, Packet(r, x, msg));
    }
  }

  /** A ping of x is on its way to p. */
  lemma PingRevives(run: seq<State>, steps: seq<Step>, x: NodeId, p: NodeId)
    returns (run': seq<State>, steps': seq<Step>)
    requires IsRun(run, steps) && x in run[|steps|].nodes && p in run[|steps|].nodes && p != x
    requires PingSent(run[|steps|], x, p) && Clears(Record(run[|steps|].nodes[p], x), 0)
    ensures Continues(run, steps, run', steps') && AliveAtPeer(run'[|steps'|], x)
  {
    var s := run[|steps|];
    RunIsSound(run, steps, |steps|);
    var pk :| pk in s.network && pk.from == x && pk.to == p && pk.msg.PingMsg?;
    assert Warranted(s, pk);
    run', steps' := DeliveryRevives(run, steps, pk, x, 0);
  }

  lemma AimRevives(run: seq<State>, steps: seq<Step>, x: NodeId, p: NodeId)
    returns (run': seq<State>, steps': seq<Step>)
    requires IsRun(run, steps) && x in run[|steps|].nodes && p in run[|steps|].nodes && p != x
    requires AimedAt(run[|steps|], x, p) && Clears(Record(run[|steps|].nodes[p], x), 0)
    ensures Continues(run, steps, run', steps') && AliveAtPeer(run'[|steps'|], x)
  {
    var pk := Packet(x, p, PingMsg(x, 0, run[|steps|].ticks[x].gathered));
    var run1, steps1 := Extended(run, steps, SendPing(x, 0));
    assert pk in run1[|steps1|].network;
    run', steps' := PingRevives(run1, steps1, x, p);
  }

  /** x holds p alive: it ends the tick it is in, if any, and pings p in the next. */
  lemma HolderRevives(run: seq<State>, steps: seq<Step>, x: NodeId, p: NodeId)
    returns (run': seq<State>, steps': seq<Step>)
    requires IsRun(run, steps) && x in run[|steps|].nodes && p in run[|steps|].nodes && p != x
    requires HoldsAlive(run[|steps|].nodes[x], p) && Clears(Record(run[|steps|].nodes[p], x), 0)
    ensures Continues(run, steps, run', steps') && AliveAtPeer(run'[|steps'|], x)
  {
    var run1, steps1 := run, steps;
    if x in run[|steps|].ticks { run1, steps1 := Extended(run, steps, SendPing(x, 0)); }
    var run2, steps2 := Extended(run1, steps1, Aim(x, p));
    run', steps' := AimRevives(run2, steps2, x, p);
  }

  /** The step that delivers or applies a death claim: x's suspicion of p gives way to it. */
  lemma DeathStep(s: State, x: NodeId, p: NodeId, d: nat) returns (st: Step)
    requires Sound(s) && x in s.nodes && p in s.nodes && p != x && DeathComing(s, x, p, d)
    requires Record(s.nodes[x], p).Some? && Record(s.nodes[x], p).value.Suspect?
    ensures Enabled(s, st) && Record(After(s, st).nodes[x], p) == Some(Dead(d))
    ensures After(s, st).nodes[p] == s.nodes[p]
  {
    var who :| Coming(s, x, p, DeadMsg(p, d, who)) || (x, DeadMsg(p, d, who)) in s.pending;
    assert s.nodes[x].id == x;
    if (x, DeadMsg(p, d, who)) in s.pending {
      st := ApplyDead(x, DeadMsg(p, d, who));
    } else {
      var pk :| pk in s.network && pk.to == x && Said(pk.msg, p) == Some(DeadMsg(p, d, who));
      assert Warranted(s, pk);
      st := Deliver(pk, 0);
      RecordAfterDelivery(s, pk, p);
    }
  }

  lemma RecordAfterDelivery(s: State, pk: Packet, x: NodeId)
    requires pk in s.network && pk.to in s.nodes && pk.to != x && s.nodes[pk.to].id == pk.to && IsSent(pk.msg, pk.from)
    ensures var s' := After(s, Deliver(pk, 0));
            && Record(s'.nodes[pk.to], x) == UpdatedBy(Record(s.nodes[pk.to], x), Said(pk.msg, x), 0)
            && s'.ticks == s.ticks
            && forall q :: q in s.nodes && q != pk.to ==> s'.nodes[q] == s.nodes[q]
  {
    RecordAfterLive(s.nodes[pk.to], pk.msg, 0, pk.from, x);
  }

  lemma DeathLowers(run: seq<State>, steps: seq<Step>, x: NodeId, p: NodeId, a: nat)
    returns (run': seq<State>, steps': seq<Step>)
    requires IsRun(run, steps) && x in run[|steps|].nodes && p in run[|steps|].nodes && p != x
    requires Lowered(run[|steps|], x, p, a)
    ensures Continues(run, steps, run', steps')
    ensures run'[|steps'|].nodes.Keys == run[|steps|].nodes.Keys && run[|steps|].network <= run'[|steps'|].network
    ensures run'[|steps'|].nodes[p] == run[|steps|].nodes[p]
    ensures Clears(Record(run'[|steps'|].nodes[x], p), a)
  {
    RunIsSound(run, steps, |steps|);
    var d: nat :| d < a && DeathComing(run[|steps|], x, p, d);
    var st := DeathStep(run[|steps|], x, p, d);
    run', steps' := Extended(run, steps, st);
  }

  lemma CallRevives(run: seq<State>, steps: seq<Step>, x: NodeId, p: NodeId)
    returns (run': seq<State>, steps': seq<Step>)
    requires IsRun(run, steps) && x in run[|steps|].nodes && p in run[|steps|].nodes && p != x
    requires Calls(run[|steps|], x, p) && Clears(Record(run[|steps|].nodes[p], x), 0)
    ensures Continues(run, steps, run', steps') && AliveAtPeer(run'[|steps'|], x)
  {
    var s := run[|steps|];
    if (x, p) in s.contacts {
      var run1, steps1 := Extended(run, steps, SendJoin(x, p));
      run', steps' := DeliveryRevives(run1, steps1, Packet(x, p, JoinMsg(x)), x, 0);
    } else if PingSent(s, x, p) {
      run', steps' := PingRevives(run, steps, x, p);
    } else if AimedAt(s, x, p) {
      run', steps' := AimRevives(run, steps, x, p);
    } else if HoldsAlive(s.nodes[x], p) {
      run', steps' := HolderRevives(run, steps, x, p);
    } else {
      run', steps' := NewsRevives(run, steps, x, p);
    }
  }

  /** x first hears that p is alive, then pings it. */
  lemma NewsRevives(run: seq<State>, steps: seq<Step>, x: NodeId, p: NodeId)
    returns (run': seq<State>, steps': seq<Step>)
    requires IsRun(run, steps) && x in run[|steps|].nodes && p in run[|steps|].nodes && p != x
    requires CanHold(run[|steps|], x, p) && !HoldsAlive(run[|steps|].nodes[x], p)
    requires Clears(Record(run[|steps|].nodes[p], x), 0)
    ensures Continues(run, steps, run', steps') && AliveAtPeer(run'[|steps'|], x)
  {
    var s := run[|steps|];
    var a: nat :| Coming(s, x, p, AliveMsg(p, a)) && (Clears(Record(s.nodes[x], p), a) || Lowered(s, x, p, a));
    var pk :| pk in s.network && pk.to == x && Said(pk.msg, p) == Some(AliveMsg(p, a));
    var run1, steps1 := run, steps;
    if !Clears(Record(s.nodes[x], p), a) { run1, steps1 := DeathLowers(run, steps, x, p, a); }
    var run2, steps2 := DeliveryRevives(run1, steps1, pk, p, a);
    run', steps' := HolderRevives(run2, steps2, x, p);
  }

  lemma GossipRevives(run: seq<State>, steps: seq<Step>, x: NodeId, p: NodeId, j: nat)
    returns (run': seq<State>, steps': seq<Step>)
    requires IsRun(run, steps) && x in run[|steps|].nodes && p in run[|steps|].nodes && p != x
    requires AliveComing(run[|steps|], p, x, j) && Clears(Record(run[|steps|].nodes[p], x), j)
    ensures Continues(run, steps, run', steps') && AliveAtPeer(run'[|steps'|], x)
  {
    var s := run[|steps|];
    RunIsSound(run, steps, |steps|);
    if pk :| pk in s.network && pk.to == p && Said(pk.msg, x) == Some(AliveMsg(x, j)) {
      run', steps' := DeliveryRevives(run, steps, pk, x, j);
    } else {
      var r :| r in s.ticks && s.ticks[r].target == p && Find(s.ticks[r].gathered, x) == Some(AliveMsg(x, j));
      FindIff(s.ticks[r].gathered, x);
      var run1, steps1 := Extended(run, steps, SendPing(r, 0));
      run', steps' := DeliveryRevives(run1, steps1, Packet(r, p, PingMsg(r, 0, s.ticks[r].gathered)), x, j);
    }
  }

  // ----- when exactly -----

  /** Something that can reach p makes it hold x alive. */
  ghost predicate WayBack(s: State, x: NodeId, p: NodeId)
    requires x in s.nodes && p in s.nodes
  {
    var r := Record(s.nodes[p], x);
    || HoldsAlive(s.nodes[p], x)
    || (Answers(s, x, p) && (Clears(r, s.nodes[x].incarnation) || Accused(s, x)))
    || (Calls(s, x, p) && Clears(r, 0))
    || (exists j: nat :: AliveComing(s, p, x, j) && Clears(r, j))
  }

  /** From every reachable state with a way back, some continuation leaves x alive at a peer. */
  lemma WayBackRevives(run: seq<State>, steps: seq<Step>, x: NodeId, p: NodeId)
    returns (run': seq<State>, steps': seq<Step>)
    requires IsRun(run, steps) && x in run[|steps|].nodes && p in run[|steps|].nodes && p != x
    requires WayBack(run[|steps|], x, p)
    ensures Continues(run, steps, run', steps') && AliveAtPeer(run'[|steps'|], x)
  {
    var s := run[|steps|];
    var r := Record(s.nodes[p], x);
    if HoldsAlive(s.nodes[p], x) {
      run', steps' := run, steps;
    } else if Answers(s, x, p) && Clears(r, s.nodes[x].incarnation) {
      run', steps' := AnswerRevives(run, steps, x, p);
    } else if Answers(s, x, p) && Accused(s, x) {
      run', steps' := AccusationRouses(run, steps, x, p);
    } else if Calls(s, x, p) && Clears(r, 0) {
      run', steps' := CallRevives(run, steps, x, p);
    } else {
      var j: nat :| AliveComing(s, p, x, j) && Clears(r, j);
      run', steps' := GossipRevives(run, steps, x, p, j);
    }
  }

  /** No ping to x is in the making while some peer admits x at incarnation zero, and no peer's suspicion of x
      dominates a claim of life, above incarnation zero, that is still on its way to it. */
  ghost predicate Settled(s: State, x: NodeId)
  {
    && (Firm(s, x) || Spared(s, x))
    && forall p, j: nat :: p in s.nodes && p != x && AliveComing(s, p, x, j) ==>
         j == 0 || Clears(Record(s.nodes[p], x), j) || !Record(s.nodes[p], x).value.Suspect?
  }

  /**
   From every reachable settled state, some continuation leaves x alive at a peer exactly
   if there is a way back to one now, and if there is none x is cut off.
   */
  lemma RevivableIff(run: seq<State>, steps: seq<Step>, x: NodeId)
    requires IsRun(run, steps) && x in run[|steps|].nodes && Settled(run[|steps|], x)
    ensures (exists p :: p in run[|steps|].nodes && p != x && WayBack(run[|steps|], x, p)) <==>
      exists run', steps' :: Continues(run, steps, run', steps') && AliveAtPeer(run'[|steps'|], x)
    ensures (exists p :: p in run[|steps|].nodes && p != x && WayBack(run[|steps|], x, p)) <==>
      !CutOff(run[|steps|], x)
  {
    var s := run[|steps|];
    if p :| p in s.nodes && p != x && WayBack(s, x, p) {
      var run', steps' := WayBackRevives(run, steps, x, p);
      assert !Shut(s, x, p);
    } else {
      assert CutOff(s, x);
      forall run', steps' | Continues(run, steps, run', steps') ensures !AliveAtPeer(run'[|steps'|], x) {
        assert run'[|steps|] == s;
        CutOffForever(run', steps', |steps|, |steps'|, x);
      }
    }
  }

  // ----- cut off, and not dead everywhere -----

  /** Nodes 0 and 2 have node 1 for bootstrap peer; node 1 has the table `members`. */
  ghost function Trio(members: map<NodeId, MemberState>, ticks: map<NodeId, Tick>, network: set<Packet>,
                      pending: set<(NodeId, Message)>): State
  {
    State(map[0 := Node(0, map[], 0), 1 := Node(1, members, 0), 2 := Node(2, map[], 0)], {(0, 1), (2, 1)}, ticks,
          network, pending)
  }

  ghost predicate Reachable(s: State)
  {
    exists run, steps :: IsRun(run, steps) && run[|steps|] == s
  }

  lemma Onward(s: State, st: Step)
    requires Reachable(s) && Enabled(s, st)
    ensures Reachable(After(s, st))
  {
    var run, steps :| IsRun(run, steps) && run[|steps|] == s;
    var run', steps' := Extended(run, steps, st);
  }

  lemma TrioChanges(s: State, members: map<NodeId, MemberState>, ticks: map<NodeId, Tick>, network: set<Packet>,
                    pending: set<(NodeId, Message)>, members': map<NodeId, MemberState>)
    requires s == Trio(members, ticks, network, pending)
    ensures s.(nodes := s.nodes[1 := s.nodes[1].(members := members')]) == Trio(members', ticks, network, pending)
  {
  }

  /** Node q joins node 1. */
  lemma TrioJoins(q: NodeId, members: map<NodeId, MemberState>, network: set<Packet>, pending: set<(NodeId, Message)>)
    requires q == 0 || q == 2
    requires q !in members && Reachable(Trio(members, map[], network, pending))
    ensures Reachable(Trio(members[q := Alive(0)], map[],
                           network + {Packet(q, 1, JoinMsg(q)), Packet(1, q, AliveMsg(1, 0))}, pending))
  {
    var s := Trio(members, map[], network, pending);
    var join, reply := Packet(q, 1, JoinMsg(q)), Packet(1, q, AliveMsg(1, 0));
    Onward(s, SendJoin(q, 1));
    var s1 := Trio(members, map[], network + {join}, pending);
    Onward(s1, Deliver(join, 0));
    assert network + {join} + {reply} == network + {join, reply};
    TrioChanges(Trio(members, map[], network + {join, reply}, pending), members, map[], network + {join, reply},
                pending, members[q := Alive(0)]);
  }

  /** Node 1 pings node 0. */
  lemma TrioPings(members: map<NodeId, MemberState>, network: set<Packet>, pending: set<(NodeId, Message)>)
    requires 0 in members && members[0].Alive? && Reachable(Trio(members, map[], network, pending))
    ensures Reachable(Trio(members, map[], network + {Packet(1, 0, PingMsg(1, 0, []))}, pending))
  {
    Onward(Trio(members, map[], network, pending), Aim(1, 0));
    var s := Trio(members, map[1 := Tick(0, [])], network, pending);
    Onward(s, SendPing(1, 0));
    assert s.ticks - {1} == map[];
  }

  /** The ping is not answered in time. */
  lemma TrioSuspects(members: map<NodeId, MemberState>, network: set<Packet>)
    requires 0 in members && members[0] == Alive(0) && Packet(1, 0, PingMsg(1, 0, [])) in network
    requires Reachable(Trio(members, map[], network, {}))
    ensures Reachable(Trio(members[0 := Suspect(0, 0)], map[], network, {(1, SuspectMsg(0, 0, 1))}))
  {
    var claim := SuspectMsg(0, 0, 1);
    Onward(Trio(members, map[], network, {}), ReadTarget(1, 0));
    var s := Trio(members, map[], network, {(1, claim)});
    Onward(s, ApplySuspect(1, claim, 0));
    TrioChanges(s, members, map[], network, {(1, claim)}, members[0 := Suspect(0, 0)]);
  }

  /** The suspicion expires. */
  lemma TrioBuries(members: map<NodeId, MemberState>, network: set<Packet>, pending: set<(NodeId, Message)>)
    requires 0 in members && members[0] == Suspect(0, 0) && Reachable(Trio(members, map[], network, pending))
    ensures Reachable(Trio(members[0 := Dead(0)], map[], network, pending + {(1, DeadMsg(0, 0, 1))}))
  {
    var claim := DeadMsg(0, 0, 1);
    Onward(Trio(members, map[], network, pending), ReadExpired(1, 0));
    var s := Trio(members, map[], network, pending + {(1, claim)});
    Onward(s, ApplyDead(1, claim));
    TrioChanges(s, members, map[], network, pending + {(1, claim)}, members[0 := Dead(0)]);
  }

  ghost function Stranded(): State
  {
    Trio(map[0 := Dead(0), 2 := Alive(0)], map[],
         {Packet(0, 1, JoinMsg(0)), Packet(1, 0, AliveMsg(1, 0)), Packet(1, 0, PingMsg(1, 0, [])),
          Packet(2, 1, JoinMsg(2)), Packet(1, 2, AliveMsg(1, 0))},
         {(1, SuspectMsg(0, 0, 1)), (1, DeadMsg(0, 0, 1))})
  }

  /** Node 1 pings node 0, which has joined it, and is not answered; it lets the suspicion expire.  Then node 2
      joins. */
  lemma StrandedIsReachable()
    ensures Reachable(Stranded())
  {
    var s := Trio(map[], map[], {}, {});
    assert IsRun([s], []);
    var joined := {Packet(0, 1, JoinMsg(0)), Packet(1, 0, AliveMsg(1, 0))};
    TrioJoins(0, map[], {}, {});
    assert {} + joined == joined;
    assert Reachable(Trio(map[0 := Alive(0)], map[], joined, {}));
    TrioPings(map[0 := Alive(0)], joined, {});
    var pinged := joined + {Packet(1, 0, PingMsg(1, 0, []))};
    var members: map<NodeId, MemberState> := map[0 := Alive(0)];
    TrioSuspects(members, pinged);
    assert members[0 := Suspect(0, 0)] == map[0 := Suspect(0, 0)];
    StrandedInTheEnd(pinged);
  }

  lemma StrandedInTheEnd(network: set<Packet>)
    requires network == {Packet(0, 1, JoinMsg(0)), Packet(1, 0, AliveMsg(1, 0)), Packet(1, 0, PingMsg(1, 0, []))}
    requires Reachable(Trio(map[0 := Suspect(0, 0)], map[], network, {(1, SuspectMsg(0, 0, 1))}))
    ensures Reachable(Stranded())
  {
    var pending := {(1, SuspectMsg(0, 0, 1)), (1, DeadMsg(0, 0, 1))};
    var members: map<NodeId, MemberState> := map[0 := Suspect(0, 0)];
    TrioBuries(members, network, {(1, SuspectMsg(0, 0, 1))});
    assert members[0 := Dead(0)] == map[0 := Dead(0)];
    assert {(1, SuspectMsg(0, 0, 1))} + {(1, DeadMsg(0, 0, 1))} == pending;
    TrioJoins(2, map[0 := Dead(0)], network, pending);
  }

  lemma StrandedIsShut()
    ensures Shut(Stranded(), 0, 1) && Shut(Stranded(), 0, 2)
  {
    var s := Stranded();
    assert !Answers(s, 0, 2) && !Accused(s, 0);
    assert forall j: nat :: !AliveComing(s, 2, 0, j) && !Coming(s, 0, 2, AliveMsg(2, j));
  }

  /** In that state node 2 has never heard of node 0, so node 0 is not dead everywhere; still it is cut off. */
  lemma StrandedIsCutOff()
    ensures CutOff(Stranded(), 0) && Settled(Stranded(), 0)
    ensures 0 !in Stranded().nodes[2].members && !SwimSystem.Buried(Forget(Stranded()), 0)
  {
    StrandedIsShut();
    assert !SwimSystem.DeadAtCounter(Stranded().nodes[2], 0, 0);
  }

  lemma StrandedForever(run: seq<State>, steps: seq<Step>, a: nat, b: nat)
    requires IsRun(run, steps) && a <= b < |run| && run[a] == Stranded()
    ensures !AliveAtPeer(run[b], 0)
  {
    StrandedIsCutOff();
    CutOffForever(run, steps, a, b, 0);
  }

  // ----- dead everywhere -----

  lemma AccusesOpenly(msg: Message, p: NodeId, x: NodeId)
    requires IsSent(msg, p) && SwimLocal.Accuses(msg, x)
    ensures !SwimSystem.SuspectsNot(msg, x)
  {
    if msg.PingMsg? {
      var i :| 0 <= i < |msg.piggyback| && SwimLocal.Accuses(msg.piggyback[i], x);
      assert SwimSystem.IsUpdate(msg.piggyback[i]);
    }
  }

  lemma BuriedIsNotAccused(s: State, x: NodeId)
    requires Sound(s) && SwimSystem.Buried(Forget(s), x)
    ensures !Accused(s, x)
  {
    forall r | r in s.ticks ensures !Suspects(s.ticks[r].gathered, x) {
      var c := Find(s.ticks[r].gathered, x);
      FindIff(s.ticks[r].gathered, x);
      if c.Some? { assert (r, c.value) in Forget(s).drafts; }
    }
    forall pk | pk in s.network ensures !SwimLocal.Accuses(pk.msg, x) {
      assert pk.msg in Forget(s).network && Warranted(s, pk);
      if SwimLocal.Accuses(pk.msg, x) { AccusesOpenly(pk.msg, pk.from, x); }
    }
  }

  /** A node dead everywhere is cut off. */
  lemma BuriedIsCutOff(s: State, x: NodeId)
    requires Sound(s) && SwimSystem.Buried(Forget(s), x)
    ensures CutOff(s, x)
  {
    var c := s.nodes[x].incarnation;
    BuriedIsNotAccused(s, x);
    forall p | p in s.nodes && p != x ensures Shut(s, x, p) && !Clears(Record(s.nodes[p], x), 0) {
      assert SwimSystem.DeadAtCounter(s.nodes[p], x, c);
      forall j: nat | AliveComing(s, p, x, j) ensures j <= c { ClaimOfLifeWithin(s, p, x, j); }
    }
  }

  lemma ClaimOfLifeWithin(s: State, p: NodeId, x: NodeId, j: nat)
    requires Sound(s) && x in s.nodes && AliveComing(s, p, x, j)
    ensures j <= s.nodes[x].incarnation
  {
    if Coming(s, p, x, AliveMsg(x, j)) {
      var pk :| pk in s.network && pk.to == p && Said(pk.msg, x) == Some(AliveMsg(x, j));
      ClaimsWithin(s, pk, x);
    } else {
      var r :| r in s.ticks && s.ticks[r].target == p && Find(s.ticks[r].gathered, x) == Some(AliveMsg(x, j));
      FindIff(s.ticks[r].gathered, x);
      assert (r, AliveMsg(x, j)) in Forget(s).pending + Forget(s).drafts;
    }
  }
}
