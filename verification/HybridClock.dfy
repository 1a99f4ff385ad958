/**
 The hybrid logical clock: one 64-bit word, 48 bits of wall-clock milliseconds
 over a 16-bit counter, advanced by compare-and-swap loops in any number of threads.
 */
module HybridClock {
  import opened Arithmetic

  const WORD: nat := 0x1_0000_0000_0000_0000
  const WALLS: nat := 0x1_0000_0000_0000
  const TICKS: nat := 0x1_0000
  const MAX_SKEW_MS: nat := 500
  const REPLAY_WINDOW_MS: nat := 30_000

  /** `(wall << 16) | logical` in 64 bits: what the shift pushes out is lost. */
  function Pack(wall: nat, logical: nat): (ts: nat)
    requires logical < TICKS
    ensures ts < WORD
  {
    wall % WALLS * TICKS + logical
  }

  function Wall(ts: nat): nat { ts / TICKS }

  function Logical(ts: nat): (l: nat)
    ensures l < TICKS
  {
    ts % TICKS
  }

  function SaturatingAdd(l: nat): (r: nat)
    requires l < TICKS
    ensures r < TICKS
  {
    if l + 1 < TICKS then l + 1 else l
  }

  /** The value `now` tries to install over `prior`. */
  function NowValue(prior: nat, wall: nat): nat
  {
    if wall > Wall(prior) then Pack(wall, 0)
    else if Logical(prior) == TICKS - 1 then Pack(Wall(prior) + 1, 0)
    else Pack(Wall(prior), Logical(prior) + 1)
  }

  datatype Verdict = Accepted | ClockSkew(localMs: nat, remoteMs: nat, skewMs: nat)
                   | ReplayDetected(local: nat, remote: nat, deltaMs: nat)

  function AbsDiff(a: nat, b: nat): nat { if a < b then b - a else a - b }

  function Judge(wall: nat, remote: nat): Verdict
  {
    var rw := Wall(remote);
    if rw > wall + MAX_SKEW_MS then ClockSkew(wall, rw, rw - wall)
    else if AbsDiff(rw, wall) > REPLAY_WINDOW_MS then ReplayDetected(wall, rw, AbsDiff(rw, wall))
    else Accepted
  }

  /** The value `observe` tries to install over `prior` for an accepted remote timestamp. */
  function ObserveValue(prior: nat, wall: nat, remote: nat): nat
  {
    var ow, ol, rw, rl := Wall(prior), Logical(prior), Wall(remote), Logical(remote);
    if wall > ow && wall > rw then Pack(wall, 0)
    else if ow > rw then Pack(ow, SaturatingAdd(ol))
    else if rw > ow then Pack(rw, SaturatingAdd(rl))
    else if Max(ol, rl) == TICKS - 1 then Pack(ow + 1, 0)
    else Pack(ow, Max(ol, rl) + 1)
  }

  // ----- the value on words -----

  lemma Unpack(ts: nat)
    requires ts < WORD
    ensures Wall(ts) < WALLS && Pack(Wall(ts), Logical(ts)) == ts == Wall(ts) * TICKS + Logical(ts)
  {
  }

  /** `now` returns the wall clock or the successor of the state, whichever is larger. */
  lemma NowIsMax(prior: nat, wall: nat)
    requires prior < WORD - 1 && wall < WALLS
    ensures NowValue(prior, wall) == Max(wall * TICKS, prior + 1)
  {
  }

  /** Strictly increasing exactly below the last word, from which the clock wraps to zero. */
  lemma NowIncreasesIff(prior: nat, wall: nat)
    requires prior < WORD && wall < WALLS
    ensures NowValue(prior, wall) > prior <==> prior != WORD - 1
    ensures prior == WORD - 1 ==> NowValue(prior, wall) == 0
  {
  }

  /** Both timestamps sit in the last millisecond the word can hold, one of them at its last tick. */
  predicate AtTop(prior: nat, remote: nat)
  {
    Wall(prior) == Wall(remote) == WALLS - 1 && Max(Logical(prior), Logical(remote)) == TICKS - 1
  }

  /** An accepted observation never moves the state below itself or below the remote timestamp, except at the top. */
  lemma ObserveCoversIff(prior: nat, wall: nat, remote: nat)
    requires prior < WORD && remote < WORD && wall < WALLS
    ensures ObserveValue(prior, wall, remote) >= Max(prior, remote) <==> !AtTop(prior, remote)
  {
  }

  /**
   `observe` returns the wall clock or the successor of the larger timestamp, whichever is
   larger; but of two timestamps in different milliseconds the larger one is kept where
   its counter is at its last value and the wall clock has not passed it.
   */
  lemma ObserveIsMax(prior: nat, wall: nat, remote: nat)
    requires prior < WORD && remote < WORD && wall < WALLS && !AtTop(prior, remote)
    ensures var m := Max(prior, remote);
            ObserveValue(prior, wall, remote) ==
              if Wall(prior) != Wall(remote) && m % TICKS == TICKS - 1 && wall <= Wall(m) then m
              else Max(wall * TICKS, m + 1)
  {
    Unpack(prior); Unpack(remote);
  }

  /** Exactly the timestamps from 30 s before to 500 ms after the wall clock are accepted; later ones are a skew,
      earlier ones a replay. */
  lemma JudgeIff(wall: nat, remote: nat)
    ensures var rw := remote / 65536; var v := Judge(wall, remote);
            && (v == Accepted <==> wall <= rw + 30_000 && rw <= wall + 500)
            && (v.ClockSkew? <==> rw > wall + 500)
            && (v.ReplayDetected? <==> wall > rw + 30_000)
            && (v.ClockSkew? ==> v == ClockSkew(wall, rw, rw - wall))
            && (v.ReplayDetected? ==> v == ReplayDetected(wall, rw, wall - rw))
  {
  }

  /** What an accepted observation can install: at most the next tick, or a time within the skew of the wall. */
  lemma ObserveBound(prior: nat, wall: nat, remote: nat)
    requires prior < WORD && remote < WORD && wall < WALLS && Judge(wall, remote) == Accepted
    ensures ObserveValue(prior, wall, remote) <= Max(prior + 1, (wall + MAX_SKEW_MS + 1) * TICKS)
    ensures ObserveValue(prior, wall, remote) < WORD
  {
    Unpack(prior); Unpack(remote);
  }

  // ----- the clock as one thread sees it -----

  /** One round of a compare-and-swap loop: the wall reading, what the state is when the swap is tried, and whether
      the swap fails without a reason. */
  datatype Attempt = Attempt(wall: nat, meanwhile: nat, spurious: bool)

  /** The state loaded in round i: a failed round leaves what others made of it. */
  function Loaded(state: nat, rounds: seq<Attempt>, i: nat): nat
    requires i <= |rounds|
  {
    if i == 0 then state else rounds[i - 1].meanwhile
  }

  predicate Succeeds(state: nat, rounds: seq<Attempt>, i: nat)
    requires i < |rounds|
  {
    rounds[i].meanwhile == Loaded(state, rounds, i) && !rounds[i].spurious
  }

  class Clock {
    var state: nat

    constructor (wall: nat)
      ensures state == Pack(wall, 0)
    {
      state := Pack(wall, 0);
    }

    method CompareExchange(prior: nat, value: nat, spurious: bool) returns (ok: bool)
      modifies this
      ensures ok <==> old(state) == prior && !spurious
      ensures state == if ok then value else old(state)
    {
      ok := state == prior && !spurious;
      if ok {
        state := value;
      }
    }

    /** The swap of one round; it is the step `SwapNow` of every machine in this state with this thread. */
    method TryNow(prior: nat, wall: nat, spurious: bool) returns (ok: bool, ts: nat)
      modifies this
      ensures ts == NowValue(prior, wall)
      ensures ok <==> old(state) == prior && !spurious
      ensures state == if ok then ts else old(state)
      ensures forall m: Machine, t ::
        m.state == old(state) && t in m.threads && m.threads[t] == NowLoaded(prior, wall) ==>
        && After(m, SwapNow(t, spurious)).state == state
        && After(m, SwapNow(t, spurious)).log == m.log + if ok then [Returned(ts)] else []
    {
      var oldWall, oldLogical := Wall(prior), Logical(prior);
      if wall > oldWall {
        ts := Pack(wall, 0);
      } else if oldLogical == TICKS - 1 {
        ts := Pack(oldWall + 1, 0);
      } else {
        ts := Pack(oldWall, oldLogical + 1);
      }
      ok := CompareExchange(prior, ts, spurious);
    }

    /** Returns from the first round whose swap succeeds, with the value for that round. */
    method Now(rounds: seq<Attempt>) returns (ts: nat, n: nat)
      requires |rounds| > 0 && Succeeds(state, rounds, |rounds| - 1)
      modifies this
      ensures n < |rounds| && Succeeds(old(state), rounds, n)
      ensures forall i :: 0 <= i < n ==> !Succeeds(old(state), rounds, i)
      ensures ts == state == NowValue(Loaded(old(state), rounds, n), rounds[n].wall)
    {
      n := 0;
      while true
        invariant n < |rounds| && state == Loaded(old(state), rounds, n)
        invariant forall i :: 0 <= i < n ==> !Succeeds(old(state), rounds, i)
        decreases |rounds| - n
      {
        var prior := state;
        state := rounds[n].meanwhile;
        var ok;
        ok, ts := TryNow(prior, rounds[n].wall, rounds[n].spurious);
        if ok {
          return;
        }
        n := n + 1;
      }
    }

    /** The swap of one round of an observation; it is the step `SwapObserve`. */
    method TryObserve(prior: nat, wall: nat, remote: nat, spurious: bool) returns (ok: bool)
      modifies this
      ensures ok <==> old(state) == prior && !spurious
      ensures state == if ok then ObserveValue(prior, wall, remote) else old(state)
      ensures forall m: Machine, t ::
        m.state == old(state) && t in m.threads && m.threads[t] == ObserveLoaded(prior, remote, wall) ==>
        && After(m, SwapObserve(t, spurious)).state == state
        && After(m, SwapObserve(t, spurious)).log == m.log + if ok then [Seen(remote)] else []
    {
      var oldWall, oldLogical, remoteWall, remoteLogical := Wall(prior), Logical(prior), Wall(remote), Logical(remote);
      var value;
      if wall > oldWall && wall > remoteWall {
        value := Pack(wall, 0);
      } else if oldWall > remoteWall {
        value := Pack(oldWall, SaturatingAdd(oldLogical));
      } else if remoteWall > oldWall {
        value := Pack(remoteWall, SaturatingAdd(remoteLogical));
      } else {
        var maxLogical := Max(oldLogical, remoteLogical);
        if maxLogical == TICKS - 1 {
          value := Pack(oldWall + 1, 0);
        } else {
          value := Pack(oldWall, maxLogical + 1);
        }
      }
      ok := CompareExchange(prior, value, spurious);
    }

    /** The wall clock is read once, before the loop; a timestamp that is refused changes nothing. */
    method Observe(remote: nat, wall: nat, rounds: seq<Attempt>) returns (v: Verdict, n: nat)
      requires |rounds| > 0 && Succeeds(state, rounds, |rounds| - 1)
      modifies this
      ensures v == Judge(wall, remote)
      ensures v != Accepted ==> state == old(state)
      ensures v == Accepted ==>
        && n < |rounds| && Succeeds(old(state), rounds, n)
        && (forall i :: 0 <= i < n ==> !Succeeds(old(state), rounds, i))
        && state == ObserveValue(Loaded(old(state), rounds, n), wall, remote)
    {
      n := 0;
      var remoteWall := Wall(remote);
      if remoteWall > wall + MAX_SKEW_MS {
        return ClockSkew(wall, remoteWall, remoteWall - wall), 0;
      }
      var delta := AbsDiff(remoteWall, wall);
      if delta > REPLAY_WINDOW_MS {
        return ReplayDetected(wall, remoteWall, delta), 0;
      }
      while true
        invariant n < |rounds| && state == Loaded(old(state), rounds, n)
        invariant forall i :: 0 <= i < n ==> !Succeeds(old(state), rounds, i)
        decreases |rounds| - n
      {
        var prior := state;
        state := rounds[n].meanwhile;
        var ok := TryObserve(prior, wall, remote, rounds[n].spurious);
        if ok {
          return Accepted, n;
        }
        n := n + 1;
      }
    }
  }

  // ----- any number of threads -----

  type ThreadId = nat

  datatype Thread =
    | Idle
    | NowLoaded(prior: nat, wall: nat)
    | Observing(remote: nat, wall: nat)
    | ObserveLoaded(prior: nat, remote: nat, wall: nat)

  datatype Entry = Returned(ts: nat) | Seen(ts: nat)

  /** `log` lists completed calls in order; `maxWall` is the largest wall reading so far, `updates` the number of
      successful compare-and-swaps. */
  datatype Machine = Machine(state: nat, threads: map<ThreadId, Thread>, log: seq<Entry>, maxWall: nat, updates: nat)

  datatype Step =
    | LoadNow(t: ThreadId, wall: nat)
    | SwapNow(t: ThreadId, spurious: bool)
    | BeginObserve(t: ThreadId, remote: nat, wall: nat)
    | LoadObserve(t: ThreadId)
    | SwapObserve(t: ThreadId, spurious: bool)

  ghost predicate Enabled(m: Machine, st: Step)
  {
    && st.t in m.threads
    && match st
       case LoadNow(t, wall) => m.threads[t].Idle? && wall < WALLS
       case SwapNow(t, _) => m.threads[t].NowLoaded?
       case BeginObserve(t, remote, wall) => m.threads[t].Idle? && remote < WORD && wall < WALLS
       case LoadObserve(t) => m.threads[t].Observing?
       case SwapObserve(t, _) => m.threads[t].ObserveLoaded?
  }

  ghost function After(m: Machine, st: Step): Machine
    requires Enabled(m, st)
  {
    var th := m.threads[st.t];
    match st
    case LoadNow(t, wall) =>
      m.(threads := m.threads[t := NowLoaded(m.state, wall)], maxWall := Max(m.maxWall, wall))
    case SwapNow(t, spurious) =>
      if m.state == th.prior && !spurious then
        var v := NowValue(th.prior, th.wall);
        m.(state := v, threads := m.threads[t := Idle], log := m.log + [Returned(v)], updates := m.updates + 1)
      else m.(threads := m.threads[t := Idle])
    case BeginObserve(t, remote, wall) =>
      if Judge(wall, remote) == Accepted then
        m.(threads := m.threads[t := Observing(remote, wall)], maxWall := Max(m.maxWall, wall))
      else m.(maxWall := Max(m.maxWall, wall))
    case LoadObserve(t) => m.(threads := m.threads[t := ObserveLoaded(m.state, th.remote, th.wall)])
    case SwapObserve(t, spurious) =>
      if m.state == th.prior && !spurious then
        m.(state := ObserveValue(th.prior, th.wall, th.remote), threads := m.threads[t := Idle],
           log := m.log + [Seen(th.remote)], updates := m.updates + 1)
      else m.(threads := m.threads[t := Observing(th.remote, th.wall)])
  }

  ghost predicate Initial(m: Machine)
  {
    && m.maxWall < WALLS && m.state == Pack(m.maxWall, 0) && m.log == [] && m.updates == 0
    && forall t :: t in m.threads ==> m.threads[t].Idle?
  }

  ghost predicate IsRun(run: seq<Machine>, steps: seq<Step>)
  {
    && |run| == |steps| + 1 && Initial(run[0])
    && forall i :: 0 <= i < |steps| ==> Follows(run, steps, i)
  }

  ghost predicate Follows(run: seq<Machine>, steps: seq<Step>, i: nat)
    requires i < |steps| && |run| == |steps| + 1
  {
    Enabled(run[i], steps[i]) && run[i + 1] == After(run[i], steps[i])
  }

  /** The drift bound: the skew past the largest wall reading, plus one tick per update. */
  ghost function Bound(m: Machine): nat
  {
    (m.maxWall + MAX_SKEW_MS + 1) * TICKS + m.updates
  }

  ghost predicate ThreadOk(th: Thread, maxWall: nat)
  {
    match th
    case Idle => true
    case NowLoaded(_, wall) => wall <= maxWall
    case Observing(remote, wall) => wall <= maxWall && remote < WORD && Judge(wall, remote) == Accepted
    case ObserveLoaded(_, remote, wall) => wall <= maxWall && remote < WORD && Judge(wall, remote) == Accepted
  }

  /** A later `now` in the log returned more than everything before it. */
  ghost predicate Causal(log: seq<Entry>)
  {
    forall i, j :: 0 <= i < j < |log| && log[j].Returned? ==> log[i].ts < log[j].ts
  }

  /** What holds in every state. */
  ghost predicate Inv(m: Machine)
  {
    && m.maxWall < WALLS && m.state < WORD && m.state <= Bound(m)
    && (forall t :: t in m.threads ==> ThreadOk(m.threads[t], m.maxWall))
  }

  /** What holds until the clock wraps. */
  ghost predicate Ordered(m: Machine)
  {
    Causal(m.log) && forall i :: 0 <= i < |m.log| ==> m.log[i].ts <= m.state
  }

  /** The swap succeeds on a state that has no successor in the word. */
  ghost predicate Wraps(m: Machine, st: Step)
    requires Enabled(m, st)
  {
    match st
    case SwapNow(t, spurious) => m.state == m.threads[t].prior && !spurious && m.state == WORD - 1
    case SwapObserve(t, spurious) =>
      m.state == m.threads[t].prior && !spurious && AtTop(m.state, m.threads[t].remote)
    case _ => false
  }

  /** Every step keeps the drift bound; the state falls exactly in the steps that wrap. */
  lemma StepKeepsInv(m: Machine, st: Step)
    requires Inv(m) && Enabled(m, st)
    ensures Inv(After(m, st))
    ensures m.state <= After(m, st).state <==> !Wraps(m, st)
  {
    match st
    case SwapNow(t, spurious) =>
      assert ThreadOk(m.threads[t], m.maxWall);
      NowIncreasesIff(m.state, m.threads[t].wall);
      if m.state != WORD - 1 { NowIsMax(m.state, m.threads[t].wall); }
    case SwapObserve(t, spurious) =>
      var th := m.threads[t];
      assert ThreadOk(th, m.maxWall);
      ObserveBound(m.state, th.wall, th.remote);
      ObserveCoversIff(m.state, th.wall, th.remote);
      if AtTop(m.state, th.remote) { TopObserved(m.state, th.wall, th.remote); }
    case _ =>
  }

  lemma TopObserved(prior: nat, wall: nat, remote: nat)
    requires prior < WORD && remote < WORD && wall < WALLS && AtTop(prior, remote)
    ensures ObserveValue(prior, wall, remote) == 0 < prior
  {
    Unpack(prior);
  }

  lemma StepKeepsOrder(m: Machine, st: Step)
    requires Inv(m) && Ordered(m) && Enabled(m, st) && !Wraps(m, st)
    ensures Ordered(After(m, st))
  {
    var m' := After(m, st);
    StepKeepsInv(m, st);
    assert forall i :: 0 <= i < |m.log| ==> m'.log[i] == m.log[i];
    match st
    case SwapNow(t, spurious) =>
      assert ThreadOk(m.threads[t], m.maxWall);
      NowIncreasesIff(m.state, m.threads[t].wall);
    case SwapObserve(t, spurious) =>
      var th := m.threads[t];
      assert ThreadOk(th, m.maxWall);
      ObserveCoversIff(m.state, th.wall, th.remote);
    case _ =>
  }

  lemma {:induction false} RunKeepsInv(run: seq<Machine>, steps: seq<Step>, i: nat)
    requires IsRun(run, steps) && i < |run|
    ensures Inv(run[i])
  {
    if i > 0 {
      RunKeepsInv(run, steps, i - 1);
      assert Follows(run, steps, i - 1);
      StepKeepsInv(run[i - 1], steps[i - 1]);
    }
  }

  /** None of the first j steps wraps. */
  ghost predicate NoWrap(run: seq<Machine>, steps: seq<Step>, j: nat)
    requires |run| == |steps| + 1 && j <= |steps|
  {
    forall k :: 0 <= k < j ==> Enabled(run[k], steps[k]) && !Wraps(run[k], steps[k])
  }

  ghost predicate NeverFalls(run: seq<Machine>, j: nat)
    requires j < |run|
  {
    forall k :: 0 <= k < j ==> run[k].state <= run[k + 1].state
  }

  /**
   In every interleaving the state stays within the drift bound.  It never falls, up
   to moment j, exactly if no step so far wrapped; and then every value `now` returned
   exceeds every timestamp returned or accepted before it completed.
   */
  lemma {:induction false} ClockTheorem(run: seq<Machine>, steps: seq<Step>, j: nat)
    requires IsRun(run, steps) && j < |run|
    ensures run[j].state <= Bound(run[j])
    ensures NeverFalls(run, j) <==> NoWrap(run, steps, j)
    ensures NoWrap(run, steps, j) ==> Ordered(run[j])
  {
    RunKeepsInv(run, steps, j);
    if j > 0 {
      ClockTheorem(run, steps, j - 1);
      RunKeepsInv(run, steps, j - 1);
      assert Follows(run, steps, j - 1);
      StepKeepsInv(run[j - 1], steps[j - 1]);
      assert NeverFalls(run, j) <==> NeverFalls(run, j - 1) && run[j - 1].state <= run[j - 1 + 1].state;
      assert NoWrap(run, steps, j) <==> NoWrap(run, steps, j - 1) && !Wraps(run[j - 1], steps[j - 1]);
      if NoWrap(run, steps, j) { StepKeepsOrder(run[j - 1], steps[j - 1]); }
    }
  }

  lemma BoundRises(m: Machine, st: Step)
    requires Enabled(m, st)
    ensures Bound(m) <= Bound(After(m, st))
  {
  }

  /** No step wraps while the drift bound fits the word. */
  lemma {:induction false} NoWrapWithin(run: seq<Machine>, steps: seq<Step>, j: nat)
    requires IsRun(run, steps) && j < |run| && Bound(run[j]) < WORD
    ensures NoWrap(run, steps, j)
    decreases j
  {
    if j > 0 {
      assert Follows(run, steps, j - 1);
      BoundRises(run[j - 1], steps[j - 1]);
      NoWrapWithin(run, steps, j - 1);
      RunKeepsInv(run, steps, j - 1);
      BoundedStep(run[j - 1], steps[j - 1]);
    }
  }

  lemma BoundedStep(m: Machine, st: Step)
    requires Inv(m) && Enabled(m, st) && Bound(After(m, st)) < WORD
    ensures !Wraps(m, st)
  {
    if st.SwapObserve? { assert ThreadOk(m.threads[st.t], m.maxWall); }
  }

  /** Until the clock wraps, all values returned by `now` are distinct, in order. */
  lemma NowValuesDistinct(run: seq<Machine>, steps: seq<Step>, j: nat, a: nat, b: nat)
    requires IsRun(run, steps) && j < |run| && NoWrap(run, steps, j)
    requires a < b < |run[j].log| && run[j].log[a].Returned? && run[j].log[b].Returned?
    ensures run[j].log[a].ts < run[j].log[b].ts
  {
    ClockTheorem(run, steps, j);
  }
}
