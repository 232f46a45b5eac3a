/**
 The enclave's bounded queue, worker pool and metrics as a step system: one acceptor and the workers
 interleave in any order, one atomic operation a step.
 */
module WorkerPool {
  import opened Bytes

  const N_WORKERS: nat := 64
  const QUEUE_CAP: nat := 256
  const USIZE: nat := 0x1_0000_0000_0000_0000

  datatype Outcome = Completed | Failed | Panicked

  /** Where the accept loop stands, with its local variables. */
  datatype Acceptor =
    | Listening
    | Counted(q: nat)
    | RaisingDepth(q: nat, seen: nat)
    | Sending
    | Sent
    | Refused
    | Uncounted

  /** Where a worker stands, with its local variables. */
  datatype Worker =
    | Idle
    | Received
    | Dequeued
    | Entered(now: nat)
    | RaisingFlight(now: nat, seen: nat)
    | Handling
    | Finished(outcome: Outcome)
    | Departed(outcome: Outcome)

  /** The shared state. The last five fields only record history. */
  datatype State = State(
    acceptor: Acceptor, workers: seq<Worker>, queue: nat,
    queueDepth: nat, queueDepthMax: nat, inFlight: nat, inFlightMax: nat,
    accepted: nat, shed: nat, completed: nat, failed: nat, panicked: nat,
    arrivals: nat, depthDone: nat, depthPeak: nat, flightDone: nat, flightPeak: nat)

  /** `fetch_add(1)` and `fetch_sub(1)` on a usize wrap. */
  function Inc(x: nat): nat {
    (x + 1) % USIZE
  }

  function Dec(x: nat): nat {
    if x == 0 then USIZE - 1 else x - 1
  }

  function Max(a: nat, b: nat): nat {
    if a >= b then a else b
  }

  /** The scheduler's choice: who moves, whether a weak exchange fails for no reason, how a handler ends. */
  datatype Action =
    | Accept(spurious: bool)
    | Work(i: nat, spurious: bool, outcome: Outcome)

  /** One step of the accept loop. */
  function AcceptStep(s: State, spurious: bool): State {
    match s.acceptor
    case Listening =>
      var q := Inc(s.queueDepth);
      s.(acceptor := Counted(q), queueDepth := q, arrivals := s.arrivals + 1, depthPeak := Max(s.depthPeak, q))
    case Counted(q) =>
      s.(acceptor := RaisingDepth(q, s.queueDepthMax))
    case RaisingDepth(q, seen) =>
      if q <= seen then s.(acceptor := Sending, depthDone := Max(s.depthDone, q))
      else if s.queueDepthMax == seen && !spurious then
        s.(acceptor := Sending, queueDepthMax := q, depthDone := Max(s.depthDone, q))
      else s.(acceptor := RaisingDepth(q, s.queueDepthMax))
    case Sending =>
      if s.queue < QUEUE_CAP then s.(acceptor := Sent, queue := s.queue + 1) else s.(acceptor := Refused)
    case Sent =>
      s.(acceptor := Listening, accepted := s.accepted + 1)
    case Refused =>
      s.(acceptor := Uncounted, queueDepth := Dec(s.queueDepth))
    case Uncounted =>
      s.(acceptor := Listening, shed := s.shed + 1)
  }

  /** One step of worker i; a worker waiting on an empty queue does not move. */
  function WorkStep(s: State, i: nat, spurious: bool, outcome: Outcome): State
    requires i < |s.workers|
  {
    match s.workers[i]
    case Idle =>
      if s.queue == 0 then s else Move(s, i, Received).(queue := s.queue - 1)
    case Received =>
      Move(s, i, Dequeued).(queueDepth := Dec(s.queueDepth))
    case Dequeued =>
      var now := Inc(s.inFlight);
      Move(s, i, Entered(now)).(inFlight := now, flightPeak := Max(s.flightPeak, now))
    case Entered(now) =>
      Move(s, i, RaisingFlight(now, s.inFlightMax))
    case RaisingFlight(now, seen) =>
      if now <= seen then Move(s, i, Handling).(flightDone := Max(s.flightDone, now))
      else if s.inFlightMax == seen && !spurious then
        Move(s, i, Handling).(inFlightMax := now, flightDone := Max(s.flightDone, now))
      else Move(s, i, RaisingFlight(now, s.inFlightMax))
    case Handling =>
      Move(s, i, Finished(outcome))
    case Finished(o) =>
      Move(s, i, Departed(o)).(inFlight := Dec(s.inFlight))
    case Departed(o) =>
      match o
      case Completed => Move(s, i, Idle).(completed := s.completed + 1)
      case Failed => Move(s, i, Idle).(failed := s.failed + 1)
      case Panicked => Move(s, i, Idle).(panicked := s.panicked + 1)
  }

  function Move(s: State, i: nat, w: Worker): State
    requires i < |s.workers|
  {
    s.(workers := s.workers[i := w])
  }

  function Step(s: State, a: Action): State {
    match a
    case Accept(spurious) => AcceptStep(s, spurious)
    case Work(i, spurious, outcome) => if i < |s.workers| then WorkStep(s, i, spurious, outcome) else s
  }

  /** The state after any schedule. */
  function Run(s: State, actions: seq<Action>): State {
    if actions == [] then s else Step(Run(s, actions[..|actions| - 1]), actions[|actions| - 1])
  }

  /** Some workers may fail to start, never more than N_WORKERS run. */
  function Start(spawned: nat): State
    requires spawned <= N_WORKERS
  {
    State(Listening, seq(spawned, _ => Idle), 0, 0, 0, 0, 0, 0, 0, 0, 0, 0, 0, 0, 0, 0, 0)
  }

  // ----- Counting workers -----

  datatype Role = Taken | Inside | Busy | Ending(outcome: Outcome)

  /**
   Taken: received, not yet uncounted. Inside: counted as in flight. Busy: owns a connection. Ending: its handler has
   ended so and is not counted yet.
   */
  predicate Has(r: Role, w: Worker) {
    match r
    case Taken => w.Received?
    case Inside => w.Entered? || w.RaisingFlight? || w.Handling? || w.Finished?
    case Busy => !w.Idle?
    case Ending(o) => (w.Finished? || w.Departed?) && w.outcome == o
  }

  function Bit(b: bool): nat {
    if b then 1 else 0
  }

  function Count(ws: seq<Worker>, r: Role): (n: nat)
    ensures n <= |ws|
  {
    if ws == [] then 0 else Bit(Has(r, ws[0])) + Count(ws[1..], r)
  }

  lemma {:induction false} CountMove(ws: seq<Worker>, i: nat, w: Worker, r: Role)
    requires i < |ws|
    ensures Count(ws[i := w], r) + Bit(Has(r, ws[i])) == Count(ws, r) + Bit(Has(r, w))
    decreases |ws|
  {
    if i == 0 {
      assert ws[0 := w][1..] == ws[1..];
    } else {
      assert ws[i := w][1..] == ws[1..][i - 1 := w];
      CountMove(ws[1..], i - 1, w, r);
    }
  }

  lemma {:induction false} CountNone(ws: seq<Worker>, r: Role)
    requires forall i :: 0 <= i < |ws| ==> !Has(r, ws[i])
    ensures Count(ws, r) == 0
    decreases |ws|
  {
    if ws != [] {
      CountNone(ws[1..], r);
    }
  }

  lemma {:induction false} CountSome(ws: seq<Worker>, i: nat, r: Role)
    requires i < |ws| && Has(r, ws[i])
    ensures Count(ws, r) >= 1
    decreases |ws|
  {
    if i > 0 {
      CountSome(ws[1..], i - 1, r);
    }
  }

  // ----- The invariant -----

  /** The acceptor has counted a connection that is neither queued nor uncounted yet. */
  predicate Holding(a: Acceptor) {
    a.Counted? || a.RaisingDepth? || a.Sending? || a.Refused?
  }

  predicate Conservation(s: State) {
    && |s.workers| <= N_WORKERS && s.queue <= QUEUE_CAP
    && s.queueDepth == s.queue + Bit(Holding(s.acceptor)) + Count(s.workers, Taken)
    && s.inFlight == Count(s.workers, Inside)
    && s.accepted + Bit(s.acceptor.Sent?) == s.queue + Count(s.workers, Busy) + s.completed + s.failed + s.panicked
    && s.arrivals == s.accepted + s.shed + Bit(!s.acceptor.Listening?)
  }

  /** The value a raising acceptor or worker still carries. */
  predicate DepthPending(s: State, v: nat) {
    (s.acceptor.Counted? || s.acceptor.RaisingDepth?) && s.acceptor.q == v
  }

  predicate FlightPending(w: Worker, v: nat) {
    (w.Entered? || w.RaisingFlight?) && w.now == v
  }

  predicate DepthGauge(s: State) {
    && s.depthDone <= s.queueDepthMax <= s.depthPeak
    && s.queueDepth <= s.depthPeak
    && (s.acceptor.Counted? || s.acceptor.RaisingDepth? ==> s.acceptor.q <= s.depthPeak)
    && (s.acceptor.RaisingDepth? ==> s.acceptor.seen <= s.queueDepthMax)
    && (s.depthPeak == s.depthDone || DepthPending(s, s.depthPeak))
  }

  ghost predicate FlightGauge(s: State) {
    && s.flightDone <= s.inFlightMax <= s.flightPeak
    && s.inFlight <= s.flightPeak
    && (forall i :: 0 <= i < |s.workers| && (s.workers[i].Entered? || s.workers[i].RaisingFlight?) ==> s.workers[i].now <= s.flightPeak)
    && (forall i :: 0 <= i < |s.workers| && s.workers[i].RaisingFlight? ==> s.workers[i].seen <= s.inFlightMax)
    && (s.flightPeak == s.flightDone || exists i :: 0 <= i < |s.workers| && FlightPending(s.workers[i], s.flightPeak))
  }

  ghost predicate Inv(s: State) {
    Conservation(s) && DepthGauge(s) && FlightGauge(s)
  }

  lemma StartHolds(spawned: nat)
    requires spawned <= N_WORKERS
    ensures Inv(Start(spawned))
  {
    var s := Start(spawned);
    CountNone(s.workers, Taken);
    CountNone(s.workers, Inside);
    CountNone(s.workers, Busy);
  }

  /** No decrement ever meets zero, no increment ever wraps, and the gauges stay within their bounds. */
  lemma WithinBounds(s: State)
    requires Conservation(s)
    ensures s.queueDepth <= QUEUE_CAP + N_WORKERS + 1
    ensures s.inFlight <= |s.workers| <= N_WORKERS
    ensures s.acceptor.Refused? ==> s.queueDepth >= 1
    ensures forall i :: 0 <= i < |s.workers| && s.workers[i].Received? ==> s.queueDepth >= 1
    ensures forall i :: 0 <= i < |s.workers| && s.workers[i].Finished? ==> s.inFlight >= 1
  {
    forall i | 0 <= i < |s.workers|
      ensures s.workers[i].Received? ==> s.queueDepth >= 1
      ensures s.workers[i].Finished? ==> s.inFlight >= 1
    {
      if s.workers[i].Received? {
        CountSome(s.workers, i, Taken);
      }
      if s.workers[i].Finished? {
        CountSome(s.workers, i, Inside);
      }
    }
  }

  lemma SmallInc(x: nat)
    requires x < USIZE - 1
    ensures Inc(x) == x + 1
  {
  }

  lemma AcceptKeeps(s: State, spurious: bool)
    requires Inv(s)
    ensures Inv(AcceptStep(s, spurious))
  {
    hide Count, Inc;
    WithinBounds(s);
    SmallInc(s.queueDepth);
  }

  lemma CountsAfter(s: State, t: State, i: nat)
    requires i < |s.workers| && |t.workers| == |s.workers|
    requires forall j :: 0 <= j < |s.workers| && j != i ==> t.workers[j] == s.workers[j]
    ensures Count(t.workers, Taken) == Count(s.workers, Taken) - Bit(s.workers[i].Received?) + Bit(t.workers[i].Received?)
    ensures Count(t.workers, Inside) == Count(s.workers, Inside) - Bit(Has(Inside, s.workers[i])) + Bit(Has(Inside, t.workers[i]))
    ensures Count(t.workers, Busy) == Count(s.workers, Busy) - Bit(!s.workers[i].Idle?) + Bit(!t.workers[i].Idle?)
  {
    assert t.workers == s.workers[i := t.workers[i]];
    CountMove(s.workers, i, t.workers[i], Taken);
    CountMove(s.workers, i, t.workers[i], Inside);
    CountMove(s.workers, i, t.workers[i], Busy);
  }

  lemma EarlyWorkConserves(s: State, i: nat, spurious: bool, outcome: Outcome)
    requires Conservation(s) && i < |s.workers|
    requires s.workers[i].Idle? || s.workers[i].Received? || s.workers[i].Dequeued? || s.workers[i].Entered? || s.workers[i].RaisingFlight?
    ensures Conservation(WorkStep(s, i, spurious, outcome))
  {
    hide Count, Inc;
    WithinBounds(s);
    SmallInc(s.inFlight);
    CountsAfter(s, WorkStep(s, i, spurious, outcome), i);
  }

  lemma LateWorkConserves(s: State, i: nat, spurious: bool, outcome: Outcome)
    requires Conservation(s) && i < |s.workers|
    requires s.workers[i].Handling? || s.workers[i].Finished? || s.workers[i].Departed?
    ensures Conservation(WorkStep(s, i, spurious, outcome))
  {
    hide Count, Inc;
    WithinBounds(s);
    CountsAfter(s, WorkStep(s, i, spurious, outcome), i);
  }

  lemma WorkKeepsDepthGauge(s: State, i: nat, spurious: bool, outcome: Outcome)
    requires Inv(s) && i < |s.workers|
    ensures DepthGauge(WorkStep(s, i, spurious, outcome))
  {
    hide Count, Inc, FlightGauge;
    WithinBounds(s);
  }

  /** A worker that neither enters nor raises the gauge leaves the gauge alone. */
  lemma FlightUntouched(s: State, t: State, i: nat)
    requires FlightGauge(s) && i < |s.workers| && |t.workers| == |s.workers|
    requires forall j :: 0 <= j < |s.workers| && j != i ==> t.workers[j] == s.workers[j]
    requires !(s.workers[i].Entered? || s.workers[i].RaisingFlight? || t.workers[i].Entered? || t.workers[i].RaisingFlight?)
    requires t.flightPeak == s.flightPeak && t.flightDone == s.flightDone && t.inFlightMax == s.inFlightMax
    requires t.inFlight <= s.inFlight
    ensures FlightGauge(t)
  {
    if s.flightPeak != s.flightDone {
      var j :| 0 <= j < |s.workers| && FlightPending(s.workers[j], s.flightPeak);
      assert FlightPending(t.workers[j], t.flightPeak);
    }
  }

  /** A worker that enters, raises or finishes raising moves the gauge as it should. */
  lemma FlightRaised(s: State, i: nat, spurious: bool, outcome: Outcome)
    requires FlightGauge(s) && s.inFlight < USIZE - 1 && i < |s.workers|
    requires s.workers[i].Dequeued? || s.workers[i].Entered? || s.workers[i].RaisingFlight?
    ensures FlightGauge(WorkStep(s, i, spurious, outcome))
  {
    hide Inc;
    SmallInc(s.inFlight);
    var t := WorkStep(s, i, spurious, outcome);
    assert forall j :: 0 <= j < |s.workers| && j != i ==> t.workers[j] == s.workers[j];
    if t.flightPeak != t.flightDone {
      if t.flightPeak != s.flightPeak || FlightPending(s.workers[i], s.flightPeak) {
        assert FlightPending(t.workers[i], t.flightPeak);
      } else {
        var j :| 0 <= j < |s.workers| && FlightPending(s.workers[j], s.flightPeak);
        assert FlightPending(t.workers[j], t.flightPeak);
      }
    }
  }

  lemma WorkKeepsFlightGauge(s: State, i: nat, spurious: bool, outcome: Outcome)
    requires Inv(s) && i < |s.workers|
    ensures FlightGauge(WorkStep(s, i, spurious, outcome))
  {
    hide Count, Inc, FlightGauge;
    WithinBounds(s);
    if s.workers[i].Dequeued? || s.workers[i].Entered? || s.workers[i].RaisingFlight? {
      FlightRaised(s, i, spurious, outcome);
    } else {
      FlightUntouched(s, WorkStep(s, i, spurious, outcome), i);
    }
  }

  /** Every step keeps the invariant. */
  lemma StepKeeps(s: State, a: Action)
    requires Inv(s)
    ensures Inv(Step(s, a))
  {
    match a
    case Accept(spurious) => AcceptKeeps(s, spurious);
    case Work(i, spurious, outcome) =>
      if i < |s.workers| {
        if s.workers[i].Handling? || s.workers[i].Finished? || s.workers[i].Departed? {
          LateWorkConserves(s, i, spurious, outcome);
        } else {
          EarlyWorkConserves(s, i, spurious, outcome);
        }
        WorkKeepsDepthGauge(s, i, spurious, outcome);
        WorkKeepsFlightGauge(s, i, spurious, outcome);
      }
  }

  /** The invariant holds after every schedule. */
  lemma {:induction false} RunKeeps(spawned: nat, actions: seq<Action>)
    requires spawned <= N_WORKERS
    ensures Inv(Run(Start(spawned), actions))
    decreases |actions|
  {
    if actions == [] {
      StartHolds(spawned);
    } else {
      RunKeeps(spawned, actions[..|actions| - 1]);
      StepKeeps(Run(Start(spawned), actions[..|actions| - 1]), actions[|actions| - 1]);
    }
  }

  // ----- What the invariant means -----

  /** The main counters after any schedule: bounds, and conservation of connections. */
  lemma CountersAdd(spawned: nat, actions: seq<Action>)
    requires spawned <= N_WORKERS
    ensures var s := Run(Start(spawned), actions);
      && s.queueDepth <= QUEUE_CAP + N_WORKERS + 1
      && s.inFlight <= N_WORKERS
      && s.completed + s.failed + s.panicked <= s.accepted + 1
      && s.accepted + s.shed <= s.arrivals <= s.accepted + s.shed + 1
  {
    RunKeeps(spawned, actions);
    WithinBounds(Run(Start(spawned), actions));
  }

  /** Nothing in progress: the acceptor listens, the queue is empty, every worker idles. */
  predicate Quiescent(s: State) {
    s.acceptor.Listening? && s.queue == 0 && forall i :: 0 <= i < |s.workers| ==> s.workers[i].Idle?
  }

  /** At quiescence nothing is lost and both gauges return to zero. */
  lemma QuiescentConservation(spawned: nat, actions: seq<Action>)
    requires spawned <= N_WORKERS && Quiescent(Run(Start(spawned), actions))
    ensures var s := Run(Start(spawned), actions);
      && s.arrivals == s.accepted + s.shed
      && s.accepted == s.completed + s.failed + s.panicked
      && s.queueDepth == 0 && s.inFlight == 0
  {
    RunKeeps(spawned, actions);
    var s := Run(Start(spawned), actions);
    CountNone(s.workers, Taken);
    CountNone(s.workers, Inside);
    CountNone(s.workers, Busy);
  }

  // ----- What is counted -----

  /** What a step does, told by who moves and where it stands, not by any counter. */
  datatype Event = Arrival | Offer(full: bool) | End(outcome: Outcome) | Other

  function EventOf(s: State, a: Action): Event {
    match a
    case Accept(_) =>
      if s.acceptor.Listening? then Arrival else if s.acceptor.Sending? then Offer(s.queue == QUEUE_CAP) else Other
    case Work(i, _, outcome) =>
      if i < |s.workers| && s.workers[i].Handling? then End(outcome) else Other
  }

  /** How often an event happens along a schedule. */
  function Times(spawned: nat, actions: seq<Action>, e: Event): nat
    requires spawned <= N_WORKERS
  {
    if actions == [] then 0
    else
      var front := actions[..|actions| - 1];
      Times(spawned, front, e) + Bit(EventOf(Run(Start(spawned), front), actions[|actions| - 1]) == e)
  }

  function CounterOf(s: State, o: Outcome): nat {
    match o
    case Completed => s.completed
    case Failed => s.failed
    case Panicked => s.panicked
  }

  /** What is counted, or pending to be counted. */
  function Arrived(s: State): nat {
    s.arrivals
  }

  function Admitted(s: State): nat {
    s.accepted + Bit(s.acceptor.Sent?)
  }

  function TurnedAway(s: State): nat {
    s.shed + Bit(s.acceptor.Refused? || s.acceptor.Uncounted?)
  }

  function EndedSo(s: State, o: Outcome): nat {
    CounterOf(s, o) + Count(s.workers, Ending(o))
  }

  lemma AcceptCounts(s: State, spurious: bool, o: Outcome)
    requires Conservation(s)
    ensures var t, e := AcceptStep(s, spurious), EventOf(s, Accept(spurious));
      && Arrived(t) == Arrived(s) + Bit(e == Arrival)
      && Admitted(t) == Admitted(s) + Bit(e == Offer(false))
      && TurnedAway(t) == TurnedAway(s) + Bit(e == Offer(true))
      && EndedSo(t, o) == EndedSo(s, o) && !e.End?
  {
    hide Count, Inc, Dec;
  }

  lemma SameButWorkers(s: State, i: nat, spurious: bool, outcome: Outcome)
    requires i < |s.workers|
    ensures var t := WorkStep(s, i, spurious, outcome);
      && t.acceptor == s.acceptor && t.arrivals == s.arrivals && t.accepted == s.accepted && t.shed == s.shed
      && |t.workers| == |s.workers| && t.workers == s.workers[i := t.workers[i]]
  {
    hide Inc, Dec;
  }

  lemma DepartedCounts(s: State, i: nat, spurious: bool, outcome: Outcome, o: Outcome)
    requires i < |s.workers|
    ensures var t, w := WorkStep(s, i, spurious, outcome), s.workers[i];
      CounterOf(t, o) == CounterOf(s, o) + Bit(w.Departed? && w.outcome == o)
  {
    hide Inc, Dec;
  }

  lemma EndingMoves(s: State, i: nat, spurious: bool, outcome: Outcome, o: Outcome)
    requires i < |s.workers|
    ensures var t, w := WorkStep(s, i, spurious, outcome), s.workers[i];
      && |t.workers| == |s.workers|
      && (w.Handling? ==> !Has(Ending(o), w) && (Has(Ending(o), t.workers[i]) <==> outcome == o))
      && (w.Departed? ==> !Has(Ending(o), t.workers[i]) && (Has(Ending(o), w) <==> w.outcome == o))
      && (!w.Handling? && !w.Departed? ==> (Has(Ending(o), t.workers[i]) <==> Has(Ending(o), w)))
  {
    hide Inc, Dec;
  }

  lemma WorkCounts(s: State, i: nat, spurious: bool, outcome: Outcome, o: Outcome)
    requires i < |s.workers|
    ensures var t, e := WorkStep(s, i, spurious, outcome), EventOf(s, Work(i, spurious, outcome));
      && Arrived(t) == Arrived(s) && Admitted(t) == Admitted(s) && TurnedAway(t) == TurnedAway(s)
      && EndedSo(t, o) == EndedSo(s, o) + Bit(e == End(o)) && !e.Arrival? && !e.Offer?
  {
    hide Count, WorkStep, CounterOf, Has;
    var t := WorkStep(s, i, spurious, outcome);
    SameButWorkers(s, i, spurious, outcome);
    DepartedCounts(s, i, spurious, outcome, o);
    EndingMoves(s, i, spurious, outcome, o);
    CountMove(s.workers, i, t.workers[i], Ending(o));
  }

  /** A step adds to a counter, or leaves pending for it, exactly what happened. */
  lemma StepCounts(s: State, a: Action, o: Outcome)
    requires Conservation(s)
    ensures var t, e := Step(s, a), EventOf(s, a);
      && Arrived(t) == Arrived(s) + Bit(e == Arrival)
      && Admitted(t) == Admitted(s) + Bit(e == Offer(false))
      && TurnedAway(t) == TurnedAway(s) + Bit(e == Offer(true))
      && EndedSo(t, o) == EndedSo(s, o) + Bit(e == End(o))
  {
    hide Conservation, AcceptStep, WorkStep, Arrived, Admitted, TurnedAway, EndedSo;
    match a
    case Accept(spurious) => AcceptCounts(s, spurious, o);
    case Work(i, spurious, outcome) =>
      if i < |s.workers| {
        WorkCounts(s, i, spurious, outcome, o);
      }
  }

  /**
   Every counter is the number of its events at any moment of any run, up to what a moving part still has to count:
   connections that arrived, that found room, that found the queue full, and handlers that ended in each way.
   */
  lemma {:induction false} CountersCount(spawned: nat, actions: seq<Action>, o: Outcome)
    requires spawned <= N_WORKERS
    ensures var s := Run(Start(spawned), actions);
      && Arrived(s) == Times(spawned, actions, Arrival)
      && Admitted(s) == Times(spawned, actions, Offer(false))
      && TurnedAway(s) == Times(spawned, actions, Offer(true))
      && EndedSo(s, o) == Times(spawned, actions, End(o))
    decreases |actions|
  {
    hide Step, EventOf, Count, Conservation;
    if actions == [] {
      CountNone(Start(spawned).workers, Ending(o));
    } else {
      var front := actions[..|actions| - 1];
      CountersCount(spawned, front, o);
      RunKeeps(spawned, front);
      StepCounts(Run(Start(spawned), front), actions[|actions| - 1], o);
    }
  }

  /** At quiescence every counter is exact. */
  lemma QuiescentCounts(spawned: nat, actions: seq<Action>)
    requires spawned <= N_WORKERS && Quiescent(Run(Start(spawned), actions))
    ensures var s := Run(Start(spawned), actions);
      && s.completed == Times(spawned, actions, End(Completed))
      && s.failed == Times(spawned, actions, End(Failed))
      && s.panicked == Times(spawned, actions, End(Panicked))
      && s.accepted == Times(spawned, actions, Offer(false)) && s.shed == Times(spawned, actions, Offer(true))
  {
    hide Run, Times, Count;
    var s := Run(Start(spawned), actions);
    forall o: Outcome
      ensures CounterOf(s, o) == Times(spawned, actions, End(o))
    {
      CountersCount(spawned, actions, o);
      CountNone(s.workers, Ending(o));
    }
    CountersCount(spawned, actions, Completed);
  }

  /** One step never lowers a gauge or a peak, and a peak only moves to the current value. */
  lemma StepMonotone(s: State, a: Action)
    requires Inv(s)
    ensures var t := Step(s, a);
      && s.queueDepthMax <= t.queueDepthMax && s.inFlightMax <= t.inFlightMax
      && s.depthPeak <= t.depthPeak && s.flightPeak <= t.flightPeak
      && (t.depthPeak == s.depthPeak || t.depthPeak == t.queueDepth)
      && (t.flightPeak == s.flightPeak || t.flightPeak == t.inFlight)
  {
    hide Count, Inc;
  }

  /** The gauges never go down along a run. */
  lemma {:induction false} GaugesMonotone(spawned: nat, actions: seq<Action>, j: nat)
    requires spawned <= N_WORKERS && j <= |actions|
    ensures var s, t := Run(Start(spawned), actions[..j]), Run(Start(spawned), actions);
      && s.queueDepthMax <= t.queueDepthMax && s.inFlightMax <= t.inFlightMax
      && s.depthPeak <= t.depthPeak && s.flightPeak <= t.flightPeak
    decreases |actions|
  {
    hide Step;
    if j < |actions| {
      var front := actions[..|actions| - 1];
      assert front[..j] == actions[..j];
      GaugesMonotone(spawned, front, j);
      RunKeeps(spawned, front);
      StepMonotone(Run(Start(spawned), front), actions[|actions| - 1]);
    } else {
      assert actions[..j] == actions;
    }
  }

  /** Every recorded peak was reached by the live gauge at some moment of the run. */
  lemma {:induction false} PeaksReached(spawned: nat, actions: seq<Action>) returns (d: nat, f: nat)
    requires spawned <= N_WORKERS
    ensures d <= |actions| && Run(Start(spawned), actions[..d]).queueDepth == Run(Start(spawned), actions).depthPeak
    ensures f <= |actions| && Run(Start(spawned), actions[..f]).inFlight == Run(Start(spawned), actions).flightPeak
    decreases |actions|
  {
    hide Step;
    d, f := |actions|, |actions|;
    assert actions[..|actions|] == actions;
    if actions != [] {
      var front := actions[..|actions| - 1];
      var d', f' := PeaksReached(spawned, front);
      RunKeeps(spawned, front);
      StepMonotone(Run(Start(spawned), front), actions[|actions| - 1]);
      assert front[..d'] == actions[..d'] && front[..f'] == actions[..f'];
      if Run(Start(spawned), actions).depthPeak == Run(Start(spawned), front).depthPeak {
        d := d';
      }
      if Run(Start(spawned), actions).flightPeak == Run(Start(spawned), front).flightPeak {
        f := f';
      }
    }
  }

  /**
   Once nothing is in progress, each max gauge is exactly the highest value the live gauge ever had: an
   upper bound of every earlier moment that some moment reached, in spite of racing updates.
   */
  lemma MaxGaugesAreExact(spawned: nat, actions: seq<Action>, j: nat) returns (d: nat, f: nat)
    requires spawned <= N_WORKERS && j <= |actions| && Quiescent(Run(Start(spawned), actions))
    ensures var s := Run(Start(spawned), actions);
      && Run(Start(spawned), actions[..j]).queueDepth <= s.queueDepthMax
      && Run(Start(spawned), actions[..j]).inFlight <= s.inFlightMax
      && d <= |actions| && Run(Start(spawned), actions[..d]).queueDepth == s.queueDepthMax
      && f <= |actions| && Run(Start(spawned), actions[..f]).inFlight == s.inFlightMax
  {
    hide Run, Conservation, Count;
    RunKeeps(spawned, actions);
    RunKeeps(spawned, actions[..j]);
    GaugesMonotone(spawned, actions, j);
    d, f := PeaksReached(spawned, actions);
  }

  /** At any moment a max gauge covers every value whose update has completed. */
  lemma CompletedUpdatesCovered(spawned: nat, actions: seq<Action>)
    requires spawned <= N_WORKERS
    ensures var s := Run(Start(spawned), actions);
      s.depthDone <= s.queueDepthMax <= QUEUE_CAP + N_WORKERS + 1 && s.flightDone <= s.inFlightMax <= N_WORKERS
  {
    hide Run;
    RunKeeps(spawned, actions);
    var d, f := PeaksReached(spawned, actions);
    RunKeeps(spawned, actions[..d]);
    RunKeeps(spawned, actions[..f]);
    WithinBounds(Run(Start(spawned), actions[..d]));
    WithinBounds(Run(Start(spawned), actions[..f]));
  }
}
