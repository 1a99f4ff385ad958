/**
 Encoding on write.  Storing content publishes an event; the event loop answers it
 by starting an encoder; the encoder stores coded pieces, which publishes events
 again.  A piece's identifier is marked before it is stored, and the loop starts no
 encoder for a marked one.

 The loop and the encoders interleave at every store or index operation.  Each
 event carries who caused it, which nothing reads but the statements below.
 */
module Cascade {
  import opened Wrappers
  import opened PieceTracker

  /** Pieces made of one content: the encoder's target for a generation of 32, by `Redundancy.TargetsAgreeIff`. */
  const MAX_PIECES: nat := 2 * 32 + 16

  /** Writes from outside are numbered in order. */
  datatype Origin = External(id: nat) | Pipeline

  datatype Event = CidWritten(cid: Cid, origin: Origin)

  /** An encoder: before reading its content; with pieces to store; with the first of them marked; finished. */
  datatype Task =
    | Fetching(cid: Cid)
    | Storing(cid: Cid, todo: seq<Cid>, stored: seq<Cid>)
    | Marked(cid: Cid, piece: Cid, todo: seq<Cid>, stored: seq<Cid>)
    | Done(cid: Cid, recorded: bool)

  /** `current` is the event the loop has taken and not yet decided on; `started` those that started an encoder.
      The rest is history: what was written from outside, in order; all events published; those lost to a lagging
      queue; those passed over as marked. */
  datatype State = State(
    queue: seq<Event>,
    current: Option<Event>,
    tasks: seq<Task>,
    marked: set<Cid>,
    disk: set<Cid>,
    index: map<Cid, seq<Cid>>,
    started: seq<Event>,
    writes: seq<Cid>,
    published: seq<Event>,
    dropped: seq<Event>,
    skipped: seq<Event>)

  datatype Step =
    | Write(cid: Cid)
    | Delete(cid: Cid)
    | Lag(n: nat)
    | Take
    | Decide
    | Read(task: nat, pieces: Option<seq<Cid>>)
    | Mark(task: nat)
    | Put(task: nat, ok: bool)
    | Finish(task: nat)

  /** What others do to the store; all other steps are the loop's and the encoders'. */
  predicate Outside(st: Step) { st.Write? || st.Delete? }

  predicate Enabled(s: State, st: Step)
  {
    match st
    case Write(_) => true
    case Delete(_) => true
    case Lag(n) => 0 < n <= |s.queue|
    case Take => s.current.None? && |s.queue| > 0
    case Decide => s.current.Some?
    case Read(t, pieces) =>
      && t < |s.tasks| && s.tasks[t].Fetching?
      && (pieces.Some? ==> s.tasks[t].cid in s.disk && |pieces.value| <= MAX_PIECES)
    case Mark(t) => t < |s.tasks| && s.tasks[t].Storing? && |s.tasks[t].todo| > 0
    case Put(t, _) => t < |s.tasks| && s.tasks[t].Marked?
    case Finish(t) => t < |s.tasks| && s.tasks[t].Storing? && s.tasks[t].todo == []
  }

  /** A store operation publishes an event only if it writes a file. */
  function Published(s: State, cid: Cid, origin: Origin): State
  {
    if cid in s.disk then s else
      var e := CidWritten(cid, origin);
      s.(disk := s.disk + {cid}, queue := s.queue + [e], published := s.published + [e])
  }

  function After(s: State, st: Step): State
    requires Enabled(s, st)
  {
    match st
    case Write(cid) => Published(s, cid, External(|s.writes|)).(writes := s.writes + [cid])
    case Delete(cid) => s.(disk := s.disk - {cid})
    case Lag(n) => s.(queue := s.queue[n..], dropped := s.dropped + s.queue[..n])
    case Take => s.(current := Some(s.queue[0]), queue := s.queue[1..])
    case Decide =>
      var e := s.current.value;
      if e.cid in s.marked then s.(current := None, skipped := s.skipped + [e])
      else s.(current := None, tasks := s.tasks + [Fetching(e.cid)], started := s.started + [e])
    case Read(t, pieces) =>
      var cid := s.tasks[t].cid;
      s.(tasks := s.tasks[t := if pieces.Some? then Storing(cid, pieces.value, []) else Done(cid, false)])
    case Mark(t) =>
      var k := s.tasks[t];
      s.(tasks := s.tasks[t := Marked(k.cid, k.todo[0], k.todo[1..], k.stored)], marked := s.marked + {k.todo[0]})
    case Put(t, ok) =>
      var k := s.tasks[t];
      if ok then Published(s, k.piece, Pipeline).(tasks := s.tasks[t := Storing(k.cid, k.todo, k.stored + [k.piece])])
      else s.(tasks := s.tasks[t := Storing(k.cid, k.todo, k.stored)])
    case Finish(t) =>
      var k := s.tasks[t];
      s.(tasks := s.tasks[t := Done(k.cid, true)], index := s.index[k.cid := k.stored])
  }

  ghost predicate Initial(s: State)
  {
    && s.queue == [] && s.current == None && s.tasks == [] && s.index == map[]
    && s.started == [] && s.writes == [] && s.published == [] && s.dropped == [] && s.skipped == []
  }

  ghost predicate IsRun(run: seq<State>, steps: seq<Step>)
  {
    && |run| == |steps| + 1 && Initial(run[0])
    && forall i :: 0 <= i < |steps| ==> Follows(run, steps, i)
  }

  ghost predicate Follows(run: seq<State>, steps: seq<Step>, i: nat)
    requires i < |steps| && |run| == |steps| + 1
  {
    Enabled(run[i], steps[i]) && run[i + 1] == After(run[i], steps[i])
  }

  // ----- marked before queued -----

  predicate EventMarked(marked: set<Cid>, e: Event)
  {
    e.origin == Pipeline ==> e.cid in marked
  }

  ghost predicate TaskMarked(marked: set<Cid>, t: Task)
  {
    && (t.Marked? ==> t.piece in marked)
    && ((t.Storing? || t.Marked?) ==> forall p :: p in t.stored ==> p in marked)
  }

  ghost predicate Inv(s: State)
  {
    && (forall i :: 0 <= i < |s.queue| ==> EventMarked(s.marked, s.queue[i]))
    && (s.current.Some? ==> EventMarked(s.marked, s.current.value))
    && (forall i :: 0 <= i < |s.tasks| ==> TaskMarked(s.marked, s.tasks[i]))
    && (forall i :: 0 <= i < |s.started| ==> s.started[i].origin.External?)
    && (forall c, p :: c in s.index && p in s.index[c] ==> p in s.marked)
  }

  lemma StepKeepsInv(s: State, st: Step)
    requires Inv(s) && Enabled(s, st)
    ensures Inv(After(s, st))
  {
  }

  // ----- potential -----

  const TASK: nat := 2 + 4 * MAX_PIECES

  function EventWeight(e: Event): nat
  {
    if e.origin.External? then TASK + 2 else 2
  }

  function TaskWeight(t: Task): nat
  {
    match t
    case Fetching(_) => TASK
    case Storing(_, todo, _) => 1 + 4 * |todo|
    case Marked(_, _, todo, _) => 4 + 4 * |todo|
    case Done(_, _) => 0
  }

  function QueueWeight(q: seq<Event>): nat
  {
    if |q| == 0 then 0 else EventWeight(q[0]) + QueueWeight(q[1..])
  }

  function TasksWeight(ts: seq<Task>): nat
  {
    if |ts| == 0 then 0 else TaskWeight(ts[0]) + TasksWeight(ts[1..])
  }

  /** Bounds the steps still to come. */
  function Potential(s: State): nat
  {
    QueueWeight(s.queue) + (if s.current.Some? then EventWeight(s.current.value) - 1 else 0) + TasksWeight(s.tasks)
  }

  lemma {:induction false} QueuePush(q: seq<Event>, e: Event)
    ensures QueueWeight(q + [e]) == QueueWeight(q) + EventWeight(e)
  {
    if |q| == 0 {
      assert (q + [e])[1..] == [];
    } else {
      assert (q + [e])[1..] == q[1..] + [e];
      QueuePush(q[1..], e);
    }
  }

  lemma {:induction false} QueueDrop(q: seq<Event>, n: nat)
    requires n <= |q|
    ensures QueueWeight(q[n..]) + 2 * n <= QueueWeight(q)
  {
    if n == 0 {
      assert q[n..] == q;
    } else {
      QueueDrop(q[1..], n - 1);
      assert q[1..][n - 1..] == q[n..];
    }
  }

  lemma {:induction false} TasksPush(ts: seq<Task>, t: Task)
    ensures TasksWeight(ts + [t]) == TasksWeight(ts) + TaskWeight(t)
  {
    if |ts| == 0 {
      assert (ts + [t])[1..] == [];
    } else {
      assert (ts + [t])[1..] == ts[1..] + [t];
      TasksPush(ts[1..], t);
    }
  }

  lemma {:induction false} TasksUpdate(ts: seq<Task>, i: nat, t: Task)
    requires i < |ts|
    ensures TasksWeight(ts[i := t]) == TasksWeight(ts) - TaskWeight(ts[i]) + TaskWeight(t)
  {
    if i == 0 {
      assert ts[i := t][1..] == ts[1..];
    } else {
      assert ts[i := t][1..] == ts[1..][i - 1 := t];
      TasksUpdate(ts[1..], i - 1, t);
    }
  }

  lemma EncoderUsesPotential(s: State, st: Step)
    requires Enabled(s, st) && (st.Read? || st.Mark? || st.Put? || st.Finish?)
    ensures Potential(After(s, st)) < Potential(s)
  {
    TasksUpdate(s.tasks, st.task, After(s, st).tasks[st.task]);
    if st.Put? { QueuePush(s.queue, CidWritten(s.tasks[st.task].piece, Pipeline)); }
  }

  /** Every step of the loop or of an encoder uses up potential; only a write from outside adds some. */
  lemma StepUsesPotential(s: State, st: Step)
    requires Inv(s) && Enabled(s, st)
    ensures !Outside(st) ==> Potential(After(s, st)) < Potential(s)
    ensures Outside(st) ==> Potential(After(s, st)) <= Potential(s) + if st.Write? then TASK + 2 else 0
  {
    match st
    case Write(cid) => QueuePush(s.queue, CidWritten(cid, External(|s.writes|)));
    case Delete(_) =>
    case Lag(n) => QueueDrop(s.queue, n);
    case Take =>
    case Decide => TasksPush(s.tasks, Fetching(s.current.value.cid));
    case _ => EncoderUsesPotential(s, st);
  }

  // ----- runs -----

  lemma {:induction false} RunKeepsInv(run: seq<State>, steps: seq<Step>, i: nat)
    requires IsRun(run, steps) && i < |run|
    ensures Inv(run[i])
  {
    if i > 0 {
      RunKeepsInv(run, steps, i - 1);
      assert Follows(run, steps, i - 1);
      StepKeepsInv(run[i - 1], steps[i - 1]);
    }
  }

  /**
   In every reachable state, whatever the interleaving, each event caused by storing
   a piece concerns a marked identifier, and no encoder was ever started by one.
   */
  lemma PiecesNeverEncoded(run: seq<State>, steps: seq<Step>, i: nat)
    requires IsRun(run, steps) && i < |run|
    ensures forall e :: e in run[i].queue && e.origin == Pipeline ==> e.cid in run[i].marked
    ensures forall e :: e in run[i].started ==> e.origin.External?
    ensures forall c, p :: c in run[i].index && p in run[i].index[c] ==> p in run[i].marked
  {
    RunKeepsInv(run, steps, i);
  }

  // ----- one encoder per write -----

  /** The events that started an encoder, the one being decided on and the waiting ones, oldest first. */
  function Events(s: State): seq<Event>
  {
    s.started + (if s.current.Some? then [s.current.value] else []) + s.queue
  }

  /** An event from outside is that of the write it is numbered by. */
  predicate Issued(writes: seq<Cid>, e: Event)
  {
    e.origin.External? ==> e.origin.id < |writes| && writes[e.origin.id] == e.cid
  }

  ghost predicate SameWrite(e: Event, e': Event)
  {
    e.origin.External? && e'.origin == e.origin
  }

  ghost predicate OnePerWrite(writes: seq<Cid>, es: seq<Event>)
  {
    && (forall i :: 0 <= i < |es| ==> Issued(writes, es[i]))
    && (forall i, j :: 0 <= i < j < |es| ==> !SameWrite(es[i], es[j]))
  }

  lemma NewEvent(writes: seq<Cid>, es: seq<Event>, cid: Cid, e: Event)
    requires OnePerWrite(writes, es) && (e.origin == Pipeline || e == CidWritten(cid, External(|writes|)))
    ensures OnePerWrite(writes + [cid], es) && OnePerWrite(writes + [cid], es + [e])
    ensures e.origin == Pipeline ==> OnePerWrite(writes, es + [e])
  {
    forall i | 0 <= i < |es| ensures Issued(writes + [cid], es[i]) { assert Issued(writes, es[i]); }
  }

  lemma Dropped(writes: seq<Cid>, a: seq<Event>, b: seq<Event>, c: seq<Event>)
    requires OnePerWrite(writes, a + b + c)
    ensures OnePerWrite(writes, a + c)
  {
    var all, kept := a + b + c, a + c;
    forall i | 0 <= i < |kept| ensures Issued(writes, kept[i]) {
      assert kept[i] == all[if i < |a| then i else i + |b|];
    }
    forall i, j | 0 <= i < j < |kept| ensures !SameWrite(kept[i], kept[j]) {
      assert kept[i] == all[if i < |a| then i else i + |b|] && kept[j] == all[if j < |a| then j else j + |b|];
    }
  }

  lemma PublishedEvents(s: State, cid: Cid, origin: Origin)
    ensures var s' := Published(s, cid, origin);
      Events(s') == Events(s) || Events(s') == Events(s) + [CidWritten(cid, origin)]
  {
    var e := CidWritten(cid, origin);
    if cid !in s.disk {
      var first := s.started + if s.current.Some? then [s.current.value] else [];
      assert first + (s.queue + [e]) == first + s.queue + [e];
    }
  }

  lemma LoopEvents(s: State, st: Step)
    requires Enabled(s, st) && (st.Lag? || st.Take? || st.Decide?) && OnePerWrite(s.writes, Events(s))
    ensures OnePerWrite(s.writes, Events(After(s, st)))
  {
    var s', now := After(s, st), if s.current.Some? then [s.current.value] else [];
    match st
    case Lag(n) =>
      assert Events(s) == s.started + now + s.queue[..n] + s.queue[n..];
      Dropped(s.writes, s.started + now, s.queue[..n], s.queue[n..]);
    case Take => assert Events(s') == Events(s);
    case Decide =>
      Dropped(s.writes, s.started, now, s.queue);
      assert Events(s') == Events(s) || Events(s') == s.started + s.queue;
  }

  lemma StepKeepsEvents(s: State, st: Step)
    requires Enabled(s, st) && OnePerWrite(s.writes, Events(s))
    ensures OnePerWrite(After(s, st).writes, Events(After(s, st)))
  {
    if st.Lag? || st.Take? || st.Decide? {
      LoopEvents(s, st);
    } else if st.Write? {
      var origin := External(|s.writes|);
      PublishedEvents(s, st.cid, origin);
      NewEvent(s.writes, Events(s), st.cid, CidWritten(st.cid, origin));
    } else if st.Put? {
      var piece := s.tasks[st.task].piece;
      PublishedEvents(s, piece, Pipeline);
      NewEvent(s.writes, Events(s), piece, CidWritten(piece, Pipeline));
    }
  }

  lemma {:induction false} RunKeepsEvents(run: seq<State>, steps: seq<Step>, i: nat)
    requires IsRun(run, steps) && i < |run|
    ensures OnePerWrite(run[i].writes, Events(run[i]))
  {
    if i > 0 {
      RunKeepsEvents(run, steps, i - 1);
      assert Follows(run, steps, i - 1);
      StepKeepsEvents(run[i - 1], steps[i - 1]);
    }
  }

  /**
   Every encoder was started by the event of a write from outside, of that write's
   content, and no two by events of the same write; nor does the event of a write that
   started one wait to start another.
   */
  lemma OneEncodingPerWrite(run: seq<State>, steps: seq<Step>, i: nat, a: nat)
    requires IsRun(run, steps) && i < |run| && a < |run[i].started|
    ensures var e := run[i].started[a];
      && e.origin.External? && e.origin.id < |run[i].writes| && run[i].writes[e.origin.id] == e.cid
      && (forall b :: 0 <= b < |run[i].started| && b != a ==> run[i].started[b].origin != e.origin)
      && (run[i].current.Some? ==> run[i].current.value.origin != e.origin)
      && (forall b :: 0 <= b < |run[i].queue| ==> run[i].queue[b].origin != e.origin)
  {
    RunKeepsInv(run, steps, i);
    RunKeepsEvents(run, steps, i);
    var s, es := run[i], Events(run[i]);
    var m := |s.started|;
    assert es[a] == s.started[a] && Issued(s.writes, es[a]);
    forall b | 0 <= b < m && b != a ensures s.started[b].origin != s.started[a].origin {
      assert es[b] == s.started[b];
      assert !SameWrite(es[if a < b then a else b], es[if a < b then b else a]);
    }
    if s.current.Some? { assert es[m] == s.current.value && !SameWrite(es[a], es[m]); }
    forall b | 0 <= b < |s.queue| ensures s.queue[b].origin != s.started[a].origin {
      assert es[|es| - |s.queue| + b] == s.queue[b] && !SameWrite(es[a], es[|es| - |s.queue| + b]);
    }
  }

  // ----- no event is lost but to a lagging queue -----

  /** Each event published is in exactly one place. */
  ghost predicate Conserved(s: State)
  {
    multiset(s.published) == multiset(Events(s)) + multiset(s.dropped) + multiset(s.skipped)
  }

  /** Encoder i is that of the i-th event that started one; a recorded content is in the index; an event passed over
      concerns a marked identifier. */
  ghost predicate Accounted(s: State)
  {
    && |s.tasks| == |s.started|
    && (forall i :: 0 <= i < |s.tasks| ==> s.tasks[i].cid == s.started[i].cid)
    && (forall i :: 0 <= i < |s.tasks| && s.tasks[i].Done? && s.tasks[i].recorded ==> s.tasks[i].cid in s.index)
    && (forall i :: 0 <= i < |s.skipped| ==> s.skipped[i].cid in s.marked)
  }

  /** Taking b out of the middle and putting it behind d. */
  lemma Moved(a: seq<Event>, b: seq<Event>, c: seq<Event>, d: seq<Event>)
    ensures multiset(a + b + c) + multiset(d) == multiset(a + c) + multiset(d + b)
  {
    var ma, mb, mc, md := multiset(a), multiset(b), multiset(c), multiset(d);
    assert multiset(a + b + c) == ma + mb + mc && multiset(a + c) == ma + mc && multiset(d + b) == md + mb;
  }

  lemma Regrouped(p: multiset<Event>, q: multiset<Event>, d: multiset<Event>, d': multiset<Event>, k: multiset<Event>)
    requires p + d == q + d'
    ensures p + d + k == q + d' + k && p + k + d == q + k + d'
  {
    assert p + k + d == p + d + k && q + k + d' == q + d' + k;
  }

  lemma LagConserves(s: State, n: nat)
    requires Enabled(s, Lag(n)) && Conserved(s)
    ensures Conserved(After(s, Lag(n)))
  {
    var s', first := After(s, Lag(n)), s.started + if s.current.Some? then [s.current.value] else [];
    assert Events(s) == first + s.queue[..n] + s.queue[n..] && Events(s') == first + s.queue[n..];
    Moved(first, s.queue[..n], s.queue[n..], s.dropped);
    Regrouped(multiset(Events(s)), multiset(Events(s')), multiset(s.dropped), multiset(s'.dropped),
              multiset(s.skipped));
  }

  lemma DecideConserves(s: State)
    requires Enabled(s, Decide) && Conserved(s)
    ensures Conserved(After(s, Decide))
  {
    var s', now := After(s, Decide), [s.current.value];
    assert Events(s) == s.started + now + s.queue;
    if s.current.value.cid in s.marked {
      assert Events(s') == s.started + s.queue;
      Moved(s.started, now, s.queue, s.skipped);
      Regrouped(multiset(Events(s)), multiset(Events(s')), multiset(s.skipped), multiset(s'.skipped),
                multiset(s.dropped));
    } else {
      assert Events(s') == Events(s);
    }
  }

  lemma PublishConserves(s: State, cid: Cid, origin: Origin)
    requires Conserved(s)
    ensures Conserved(Published(s, cid, origin))
  {
    PublishedEvents(s, cid, origin);
    if cid !in s.disk {
      var e := CidWritten(cid, origin);
      var es := multiset(Events(s));
      assert Events(Published(s, cid, origin)) == Events(s) + [e];
      assert multiset(s.published + [e]) == multiset(s.published) + multiset{e};
      Regrouped(es + multiset{e}, es, multiset{}, multiset{e}, multiset(s.dropped) + multiset(s.skipped));
    }
  }

  lemma StepConserves(s: State, st: Step)
    requires Enabled(s, st) && Conserved(s)
    ensures Conserved(After(s, st))
  {
    var s' := After(s, st);
    if st.Lag? {
      LagConserves(s, st.n);
    } else if st.Decide? {
      DecideConserves(s);
    } else if st.Write? {
      PublishConserves(s, st.cid, External(|s.writes|));
      assert Events(s') == Events(Published(s, st.cid, External(|s.writes|)));
    } else if st.Put? && st.ok {
      PublishConserves(s, s.tasks[st.task].piece, Pipeline);
      assert Events(s') == Events(Published(s, s.tasks[st.task].piece, Pipeline));
    } else {
      assert Events(s') == Events(s);
    }
  }

  lemma StepAccounts(s: State, st: Step)
    requires Enabled(s, st) && Accounted(s)
    ensures Accounted(After(s, st))
  {
  }

  lemma InitialConserves(s: State)
    requires Initial(s)
    ensures Conserved(s) && Accounted(s)
  {
    assert Events(s) == [] && multiset(s.published) == multiset{};
  }

  lemma {:induction false} RunConserves(run: seq<State>, steps: seq<Step>, i: nat)
    requires IsRun(run, steps) && i < |run|
    ensures Conserved(run[i])
  {
    if i == 0 {
      InitialConserves(run[0]);
    } else {
      RunConserves(run, steps, i - 1);
      assert Follows(run, steps, i - 1);
      StepConserves(run[i - 1], steps[i - 1]);
    }
  }

  lemma {:induction false} RunAccounts(run: seq<State>, steps: seq<Step>, i: nat)
    requires IsRun(run, steps) && i < |run|
    ensures Accounted(run[i])
  {
    if i == 0 {
      InitialConserves(run[0]);
    } else {
      RunAccounts(run, steps, i - 1);
      assert Follows(run, steps, i - 1);
      StepAccounts(run[i - 1], steps[i - 1]);
    }
  }

  lemma {:induction false} PublishedGrows(run: seq<State>, steps: seq<Step>, i: nat, j: nat)
    requires IsRun(run, steps) && i <= j < |run|
    ensures run[i].published <= run[j].published
    decreases j
  {
    if i < j {
      PublishedGrows(run, steps, i, j - 1);
      assert Follows(run, steps, j - 1);
    }
  }

  // ----- events are answered in order -----

  /** `at` says where the entries of a are found in b, in order. */
  ghost predicate Embeds(a: seq<Event>, b: seq<Event>, at: seq<nat>)
  {
    && |at| == |a|
    && (forall i :: 0 <= i < |a| ==> at[i] < |b| && b[at[i]] == a[i])
    && (forall i, j :: 0 <= i < j < |at| ==> at[i] < at[j])
  }

  lemma EmbedsWithout(a: seq<Event>, b: seq<Event>, c: seq<Event>, p: seq<Event>, at: seq<nat>) returns (at': seq<nat>)
    requires Embeds(a + b + c, p, at)
    ensures Embeds(a + c, p, at')
  {
    at' := at[..|a|] + at[|a| + |b|..];
    var all, kept := a + b + c, a + c;
    forall i | 0 <= i < |kept| ensures at'[i] < |p| && p[at'[i]] == kept[i] {
      var j := if i < |a| then i else i + |b|;
      assert at'[i] == at[j] && kept[i] == all[j];
    }
  }

  lemma EmbedsMore(a: seq<Event>, p: seq<Event>, at: seq<nat>, e: Event)
    requires Embeds(a, p, at)
    ensures Embeds(a, p + [e], at) && Embeds(a + [e], p + [e], at + [|p|])
  {
  }

  ghost predicate InOrder(s: State)
  {
    exists at :: Embeds(Events(s), s.published, at)
  }

  lemma PublishInOrder(s: State, cid: Cid, origin: Origin)
    requires InOrder(s)
    ensures InOrder(Published(s, cid, origin))
  {
    if cid !in s.disk {
      var at :| Embeds(Events(s), s.published, at);
      PublishedEvents(s, cid, origin);
      var e := CidWritten(cid, origin);
      assert Events(Published(s, cid, origin)) == Events(s) + [e];
      EmbedsMore(Events(s), s.published, at, e);
    }
  }

  lemma StepInOrder(s: State, st: Step)
    requires Enabled(s, st) && InOrder(s)
    ensures InOrder(After(s, st))
  {
    var s', now := After(s, st), if s.current.Some? then [s.current.value] else [];
    var at :| Embeds(Events(s), s.published, at);
    match st
    case Write(cid) =>
      var p := Published(s, cid, External(|s.writes|));
      PublishInOrder(s, cid, External(|s.writes|));
      assert Events(s') == Events(p) && s'.published == p.published;
    case Put(t, ok) =>
      var p := Published(s, s.tasks[t].piece, Pipeline);
      PublishInOrder(s, s.tasks[t].piece, Pipeline);
      assert Events(s') == (if ok then Events(p) else Events(s));
    case Lag(n) =>
      assert Events(s) == (s.started + now) + s.queue[..n] + s.queue[n..];
      var at' := EmbedsWithout(s.started + now, s.queue[..n], s.queue[n..], s.published, at);
      assert Events(s') == s.started + now + s.queue[n..];
    case Decide =>
      var at' := EmbedsWithout(s.started, now, s.queue, s.published, at);
      assert Events(s') == Events(s) || Events(s') == s.started + s.queue;
    case _ =>
      assert Events(s') == Events(s);
  }

  /** In every run the events that started encoders, the one being decided on and the waiting ones, in this order, are
      in the order in which they were published. */
  lemma {:induction false} EventsInOrder(run: seq<State>, steps: seq<Step>, i: nat)
    requires IsRun(run, steps) && i < |run|
    ensures InOrder(run[i])
  {
    if i == 0 {
      assert Embeds(Events(run[0]), run[0].published, []);
    } else {
      EventsInOrder(run, steps, i - 1);
      assert Follows(run, steps, i - 1);
      StepInOrder(run[i - 1], steps[i - 1]);
    }
  }

  // ----- what the index says -----

  /** The pieces encoder t has stored by the first n steps, in order. */
  ghost function StoredBy(run: seq<State>, steps: seq<Step>, t: nat, n: nat): seq<Cid>
    requires n <= |steps| < |run|
  {
    if n == 0 then [] else
      var rest, st := StoredBy(run, steps, t, n - 1), steps[n - 1];
      if st.Put? && st.task == t && st.ok && t < |run[n - 1].tasks| && run[n - 1].tasks[t].Marked?
      then rest + [run[n - 1].tasks[t].piece] else rest
  }

  /** The pieces encoder t has tried to store by the first n steps, in order. */
  ghost function TriedBy(run: seq<State>, steps: seq<Step>, t: nat, n: nat): seq<Cid>
    requires n <= |steps| < |run|
  {
    if n == 0 then [] else
      var rest, st := TriedBy(run, steps, t, n - 1), steps[n - 1];
      if st.Put? && st.task == t && t < |run[n - 1].tasks| && run[n - 1].tasks[t].Marked?
      then rest + [run[n - 1].tasks[t].piece] else rest
  }

  /** The pieces encoder t made of its content, if it has read it by the first n steps. */
  ghost function ReadBy(steps: seq<Step>, t: nat, n: nat): seq<Cid>
    requires n <= |steps|
  {
    if n == 0 then [] else
    if steps[n - 1].Read? && steps[n - 1].task == t && steps[n - 1].pieces.Some? then steps[n - 1].pieces.value
    else ReadBy(steps, t, n - 1)
  }

  ghost predicate Tracked(k: Task, read: seq<Cid>, tried: seq<Cid>, stored: seq<Cid>)
  {
    match k
    case Fetching(_) => read == [] && tried == [] && stored == []
    case Storing(_, todo, done) => tried + todo == read && done == stored
    case Marked(_, piece, todo, done) => tried + [piece] + todo == read && done == stored
    case Done(_, _) => true
  }

  lemma {:induction false} TaskTracked(run: seq<State>, steps: seq<Step>, t: nat, n: nat)
    requires IsRun(run, steps) && n <= |steps|
    ensures t < |run[n].tasks| ==>
      Tracked(run[n].tasks[t], ReadBy(steps, t, n), TriedBy(run, steps, t, n), StoredBy(run, steps, t, n))
    ensures t >= |run[n].tasks| ==>
      ReadBy(steps, t, n) == [] && TriedBy(run, steps, t, n) == [] && StoredBy(run, steps, t, n) == []
  {
    if n > 0 {
      TaskTracked(run, steps, t, n - 1);
      assert Follows(run, steps, n - 1);
    }
  }

  /**
   When an encoder finishes, the index lists for its content the pieces the encoder
   stored, in order: of the pieces it made, all that it did not fail to store.  No other
   content's entry changes.
   */
  lemma IndexListsStored(run: seq<State>, steps: seq<Step>, t: nat, n: nat)
    requires IsRun(run, steps) && n < |steps| && steps[n] == Finish(t)
    ensures t < |run[n].tasks|
    ensures var cid := run[n].tasks[t].cid;
            && cid in run[n + 1].index && run[n + 1].index[cid] == StoredBy(run, steps, t, n)
            && forall c :: c != cid ==>
                 (c in run[n + 1].index <==> c in run[n].index) &&
                 (c in run[n].index ==> run[n + 1].index[c] == run[n].index[c])
    ensures TriedBy(run, steps, t, n) == ReadBy(steps, t, n)
    ensures (forall i :: 0 <= i < n ==> steps[i] != Put(t, false)) ==>
      run[n + 1].index[run[n].tasks[t].cid] == ReadBy(steps, t, n)
  {
    assert Follows(run, steps, n);
    TaskTracked(run, steps, t, n);
    if forall i :: 0 <= i < n ==> steps[i] != Put(t, false) { StoredIsTried(run, steps, t, n); }
  }

  lemma {:induction false} StoredIsTried(run: seq<State>, steps: seq<Step>, t: nat, n: nat)
    requires n <= |steps| < |run| && forall i :: 0 <= i < n ==> steps[i] != Put(t, false)
    ensures StoredBy(run, steps, t, n) == TriedBy(run, steps, t, n)
  {
    if n > 0 { StoredIsTried(run, steps, t, n - 1); }
  }

  /** Only a finishing encoder changes the index. */
  lemma IndexChangesByFinish(s: State, st: Step)
    requires Enabled(s, st) && !st.Finish?
    ensures After(s, st).index == s.index
  {
  }

  /** Neither the loop nor an encoder has anything left to do. */
  ghost predicate Quiet(s: State)
  {
    forall st :: Enabled(s, st) ==> Outside(st)
  }

  lemma QuietIsDone(s: State)
    requires Quiet(s)
    ensures s.queue == [] && s.current == None && forall i :: 0 <= i < |s.tasks| ==> s.tasks[i].Done?
  {
    assert !Enabled(s, Take) && !Enabled(s, Decide);
    forall i | 0 <= i < |s.tasks| ensures s.tasks[i].Done? {
      assert !Enabled(s, Read(i, None)) && !Enabled(s, Mark(i)) && !Enabled(s, Put(i, false)) && !Enabled(s, Finish(i));
    }
  }

  /**
   What is written is encoded.  Once all is quiet, the event of a write that put its
   content on disk has started an encoder of that content, which has ended, and the
   content is in the index if the encoder read it; or the event was dropped by a lagging
   queue; or its identifier was marked when the loop decided on it.
   */
  lemma WrittenIsEncoded(run: seq<State>, steps: seq<Step>, i: nat, j: nat)
    requires IsRun(run, steps) && i < j < |run| && Quiet(run[j])
    requires steps[i].Write? && steps[i].cid !in run[i].disk
    ensures var cid, s := steps[i].cid, run[j];
            var e := CidWritten(cid, External(|run[i].writes|));
            || (exists a :: 0 <= a < |s.started| == |s.tasks| && s.started[a] == e && s.tasks[a].Done? &&
                  s.tasks[a].cid == cid && (s.tasks[a].recorded ==> cid in s.index))
            || e in s.dropped
            || (e in s.skipped && cid in s.marked)
  {
    var s, e := run[j], CidWritten(steps[i].cid, External(|run[i].writes|));
    assert Follows(run, steps, i);
    PublishedGrows(run, steps, i + 1, j);
    RunConserves(run, steps, j);
    RunAccounts(run, steps, j);
    QuietIsDone(s);
    assert e in run[i + 1].published && e in multiset(s.published);
    assert Events(s) == s.started;
    if e in s.started {
      var a :| 0 <= a < |s.started| && s.started[a] == e;
      assert s.tasks[a].cid == e.cid;
    }
  }

  /** Steps of the loop and the encoders among `steps[i..j]`. */
  function Inside(steps: seq<Step>, i: nat, j: nat): nat
    requires i <= j <= |steps|
  {
    if i == j then 0 else Inside(steps, i, j - 1) + if Outside(steps[j - 1]) then 0 else 1
  }

  function Writes(steps: seq<Step>, i: nat, j: nat): nat
    requires i <= j <= |steps|
  {
    if i == j then 0 else Writes(steps, i, j - 1) + if steps[j - 1].Write? then 1 else 0
  }

  /**
   The cascade ends: from any reachable state the loop and the encoders take at most
   as many steps as its potential, plus a fixed number for each later write from
   outside, under every interleaving.
   */
  lemma {:induction false} CascadeTerminates(run: seq<State>, steps: seq<Step>, i: nat, j: nat)
    requires IsRun(run, steps) && i <= j <= |steps|
    ensures Inside(steps, i, j) + Potential(run[j]) <= Potential(run[i]) + (TASK + 2) * Writes(steps, i, j)
    decreases j
  {
    if i < j {
      CascadeTerminates(run, steps, i, j - 1);
      RunKeepsInv(run, steps, j - 1);
      assert Follows(run, steps, j - 1);
      StepUsesPotential(run[j - 1], steps[j - 1]);
    }
  }
}
