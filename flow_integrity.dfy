/**
 * The flow-integrity check of the schedule verifier (check_flow_integrity and
 * create_flow_tracker in src/util/ScheduleVerifier.cpp) and the verifySchedule entry point.
 * The reserved slots of all egress queues are visited in order of their start, and each flow
 * is followed frame by frame: every period of the hyper-cycle is one strand whose frame must
 * travel from the flow's source to its destination inside the strand's window.
 */
module FlowIntegrity {
  import opened Optional
  import opened Slots
  import opened UtilFunctions
  import opened Graph
  import opened ScheduleVerifier
  import InputParser

  datatype TrackerState = StrandOpen | StrandClosed | FlowClosed

  /** One period window of a flow and the route its frame has taken so far. */
  datatype Strand = Strand(first: nat, last: nat, previousLast: nat, path: seq<nat>)

  datatype Tracker = Tracker(flow: nat, state: TrackerState, strands: seq<Strand>, current: nat)

  // ---------------------------------------------------------------------------
  // create_flow_tracker

  /** The window of strand i: ticks i * period up to (i + 1) * period - 1. */
  function Window(i: nat, period: nat): (s: Strand)
    requires period >= 1
    ensures s.last + 1 - s.first == period && s.path == []
  {
    Strand(i * period, (i + 1) * period - 1, 0, [])
  }

  /** The tracker create_flow_tracker returns, or the rule it throws for. */
  function NewTracker(hc: nat, flow: Flow): Checked<Tracker> {
    if flow.period < 1 then Fail(PeriodBelowOne)
    else if hc % flow.period != 0 then Fail(CycleNotMultiple)
    else Pass(Tracker(flow.id, StrandClosed, seq(hc / flow.period, i requires 0 <= i => Window(i, flow.period)), 0))
  }

  /**
   * A fresh tracker splits the hyper-cycle into consecutive windows of one period each, the
   * first starting at tick 0 and the last ending at the hyper-cycle's last tick.
   */
  lemma NewTrackerWindows(hc: nat, flow: Flow)
    requires flow.period >= 1 && hc % flow.period == 0
    ensures var t := NewTracker(hc, flow).value;
      |t.strands| * flow.period == hc &&
      (|t.strands| > 0 ==> t.strands[0].first == 0 && t.strands[|t.strands| - 1].last + 1 == hc) &&
      (forall i :: 0 <= i < |t.strands| - 1 ==> t.strands[i].last + 1 == t.strands[i + 1].first)
  {
    var n := hc / flow.period;
    var t := NewTracker(hc, flow).value;
    assert |t.strands| == n;
    assert n * flow.period == hc;
    if n > 0 {
      assert t.strands[0] == Window(0, flow.period);
      assert t.strands[n - 1] == Window(n - 1, flow.period);
      assert (n - 1 + 1) * flow.period == n * flow.period;
    }
    forall i | 0 <= i < n - 1 ensures t.strands[i].last + 1 == t.strands[i + 1].first {
      assert t.strands[i] == Window(i, flow.period) && t.strands[i + 1] == Window(i + 1, flow.period);
    }
  }

  /** create_flow_tracker: checks the period, then fills in one strand per period window. */
  method CreateFlowTracker(hc: nat, flow: Flow) returns (r: Checked<Tracker>)
    ensures r == NewTracker(hc, flow)
    ensures r.Fail? <==> flow.period < 1 || hc % flow.period != 0
  {
    if flow.period < 1 {
      return Fail(PeriodBelowOne);
    }
    if hc % flow.period != 0 {
      return Fail(CycleNotMultiple);
    }
    var n := hc / flow.period;
    var strands := seq(n, _ => Strand(0, 0, 0, []));
    var i := 0;
    while i < n
      invariant i <= n && |strands| == n
      invariant forall j :: 0 <= j < i ==> strands[j] == Window(j, flow.period)
    {
      strands := strands[i := Strand(i * flow.period, (i + 1) * flow.period - 1, 0, [])];
      i := i + 1;
    }
    assert strands == seq(n, i requires 0 <= i => Window(i, flow.period));
    return Pass(Tracker(flow.id, StrandClosed, strands, 0));
  }

  // ---------------------------------------------------------------------------
  // Processing one reserved slot

  /** The tracker can be indexed as the processing of a slot indexes it. */
  predicate Indexable(t: Tracker) {
    t.current < |t.strands| && (t.state == StrandOpen ==> |t.strands[t.current].path| > 0)
  }

  /**
   * The body of check_flow_integrity's loop for one slot on a queue: the rules are checked in
   * the source's order, then the destination is appended to the strand's path and the strand
   * (or the whole flow) is closed when the frame reached the flow's destination.
   */
  function ProcessSlot(t: Tracker, slot: ReservedSlot, flow: Flow, port: Port): (r: Checked<Tracker>)
    requires Indexable(t) && slot.start < slot.next
    ensures t.state == FlowClosed ==> r == Fail(StrayFrame)
    ensures r.Pass? ==>
      var s := t.strands[t.current];
      slot.next - slot.start == TransmissionDelay(flow.frameSize) &&
      s.first <= slot.start && slot.next <= s.last + 1 &&
      (t.state == StrandClosed ==> port.source == flow.source && port.destination != flow.source) &&
      (t.state == StrandOpen ==>
        s.path[|s.path| - 1] == port.source &&
        s.previousLast + PropagationDelay + ProcessingDelay + 1 <= slot.start) &&
      port.destination !in s.path &&
      (port.destination == flow.destination ==> slot.next + PropagationDelay - 1 <= s.last)
    ensures r.Pass? ==> |r.value.strands| == |t.strands|
    ensures r.Pass? ==>
      var s' := r.value.strands[t.current];
      s'.previousLast == slot.next - 1 && |s'.path| > 0 && s'.path[|s'.path| - 1] == port.destination &&
      (r.value.state == FlowClosed || r.value.state == StrandClosed <==> port.destination == flow.destination)
  {
    if t.state == FlowClosed then Fail(StrayFrame)
    else
      var s := t.strands[t.current];
      if slot.next - slot.start != TransmissionDelay(flow.frameSize) then Fail(WrongFrameSize)
      else if s.first > slot.start || s.last + 1 < slot.next then Fail(OutsideStrand)
      else if t.state == StrandClosed && flow.source != port.source then Fail(WrongSource)
      else if t.state == StrandOpen && s.path[|s.path| - 1] != port.source then Fail(WrongHandover)
      else if t.state == StrandOpen && s.previousLast + PropagationDelay + ProcessingDelay + 1 > slot.start then
        Fail(ForwardedEarly)
      else
        var path := if t.state == StrandClosed then s.path + [flow.source] else s.path;
        if port.destination in path then Fail(CrossedItself)
        else
          var strands := t.strands[t.current := s.(path := path + [port.destination], previousLast := slot.next - 1)];
          if port.destination != flow.destination then Pass(t.(state := StrandOpen, strands := strands))
          else if s.last < slot.next + PropagationDelay - 1 then Fail(DeadlineMissed)
          else if t.current + 1 >= |t.strands| then Pass(t.(state := FlowClosed, strands := strands))
          else Pass(t.(state := StrandClosed, strands := strands, current := t.current + 1))
  }

  predicate NoRepeats(path: seq<nat>) {
    forall i, j :: 0 <= i < j < |path| ==> path[i] != path[j]
  }

  /** A finished strand: a loop-free route from the flow's source to its destination. */
  predicate Route(path: seq<nat>, flow: Flow) {
    |path| >= 2 && path[0] == flow.source && path[|path| - 1] == flow.destination && NoRepeats(path)
  }

  /**
   * What a tracker knows about its flow: one strand per period of the hyper-cycle, the strands
   * before the current one finished, the current one as its state says, the later ones untouched.
   */
  predicate TrackerOk(t: Tracker, flow: Flow, hc: nat) {
    flow.period >= 1 && hc % flow.period == 0 && |t.strands| == hc / flow.period && t.current < |t.strands| &&
    (forall i :: 0 <= i < t.current ==> Route(t.strands[i].path, flow)) &&
    (forall i :: t.current < i < |t.strands| ==> t.strands[i].path == []) &&
    var path := t.strands[t.current].path;
    match t.state
    case StrandClosed => path == []
    case StrandOpen => |path| >= 2 && path[0] == flow.source && NoRepeats(path)
    case FlowClosed => t.current == |t.strands| - 1 && Route(path, flow)
  }

  lemma NewTrackerOk(hc: nat, flow: Flow)
    requires hc >= 1 && NewTracker(hc, flow).Pass?
    ensures TrackerOk(NewTracker(hc, flow).value, flow, hc)
  {
    WholePeriods(hc, flow.period);
  }

  /** A positive hyper-cycle that is a multiple of the period holds at least one period. */
  lemma WholePeriods(hc: nat, period: nat)
    requires hc >= 1 && period >= 1 && hc % period == 0
    ensures hc / period >= 1
  {
    assert hc == period * (hc / period);
  }

  lemma AppendNoRepeats(path: seq<nat>, x: nat)
    requires NoRepeats(path) && x !in path
    ensures NoRepeats(path + [x])
  {
    var p := path + [x];
    forall i, j | 0 <= i < j < |p| ensures p[i] != p[j] {
      if j == |path| {
        assert p[i] == path[i];
      } else {
        assert p[i] == path[i] && p[j] == path[j];
      }
    }
  }

  /** Processing a slot keeps what the tracker knows: routes only grow into loop-free routes. */
  lemma ProcessSlotKeepsTracker(t: Tracker, slot: ReservedSlot, flow: Flow, port: Port, hc: nat)
    requires TrackerOk(t, flow, hc) && slot.start < slot.next
    requires ProcessSlot(t, slot, flow, port).Pass?
    ensures TrackerOk(ProcessSlot(t, slot, flow, port).value, flow, hc)
  {
    var s := t.strands[t.current];
    var path := if t.state == StrandClosed then s.path + [flow.source] else s.path;
    assert NoRepeats(path) && path[0] == flow.source by {
      if t.state == StrandClosed {
        assert path == [flow.source];
      }
    }
    AppendNoRepeats(path, port.destination);
  }

  // ---------------------------------------------------------------------------
  // The scan over all egress queues

  /** The start of each queue's next unprocessed slot, or the hyper-cycle when none is left. */
  function NextStarts(reserved: seq<seq<ReservedSlot>>, cursors: seq<nat>, hc: nat): (ns: seq<nat>)
    requires |cursors| == |reserved|
    ensures |ns| == |reserved|
  {
    seq(|reserved|, q requires 0 <= q < |reserved| =>
      if cursors[q] < |reserved[q]| then reserved[q][cursors[q]].start else hc)
  }

  /**
   * The scan for the earliest next slot over the first n queues: the first smallest value
   * below the hyper-cycle and its queue, or the hyper-cycle when there is none.
   */
  function MinScan(ns: seq<nat>, hc: nat, n: nat): (m: (nat, nat))
    requires n <= |ns|
    ensures m.0 <= hc && forall q :: 0 <= q < n ==> m.0 <= ns[q]
    ensures m.0 < hc ==> m.1 < n && ns[m.1] == m.0 && forall q :: 0 <= q < m.1 ==> m.0 < ns[q]
  {
    if n == 0 then (hc, 0)
    else
      var m := MinScan(ns, hc, n - 1);
      if ns[n - 1] < m.0 then (ns[n - 1], n - 1) else m
  }

  /** The slots still to be processed. */
  function Unvisited(reserved: seq<seq<ReservedSlot>>, cursors: seq<nat>, n: nat): nat
    requires n <= |reserved| == |cursors|
  {
    if n == 0 then 0
    else Unvisited(reserved, cursors, n - 1) + (if cursors[n - 1] <= |reserved[n - 1]| then |reserved[n - 1]| - cursors[n - 1] else 0)
  }

  /** The queues with a slot still to be processed. */
  function CountOpen(reserved: seq<seq<ReservedSlot>>, cursors: seq<nat>, n: nat): nat
    requires n <= |reserved| == |cursors|
  {
    if n == 0 then 0
    else CountOpen(reserved, cursors, n - 1) + (if cursors[n - 1] < |reserved[n - 1]| then 1 else 0)
  }

  lemma {:induction false} AdvanceCounts(reserved: seq<seq<ReservedSlot>>, cursors: seq<nat>, p: nat, n: nat)
    requires n <= |reserved| == |cursors| && p < |reserved| && cursors[p] < |reserved[p]|
    ensures Unvisited(reserved, cursors[p := cursors[p] + 1], n) + (if p < n then 1 else 0) == Unvisited(reserved, cursors, n)
    ensures CountOpen(reserved, cursors[p := cursors[p] + 1], n) + (if p < n && cursors[p] + 1 == |reserved[p]| then 1 else 0)
      == CountOpen(reserved, cursors, n)
  {
    if n > 0 {
      AdvanceCounts(reserved, cursors, p, n - 1);
    }
  }

  lemma {:induction false} CountOpenZero(reserved: seq<seq<ReservedSlot>>, cursors: seq<nat>, n: nat)
    requires n <= |reserved| == |cursors|
    ensures CountOpen(reserved, cursors, n) == 0 <==> forall q :: 0 <= q < n ==> cursors[q] >= |reserved[q]|
  {
    if n > 0 {
      CountOpenZero(reserved, cursors, n - 1);
    }
  }

  /**
   * What check_flow_integrity takes for granted: the port lookup of every queue, and ordered
   * reserved lists (verifySchedule runs it only after checkReservedSlotOrder passed).
   */
  predicate Inputs(ports: seq<Checked<Port>>, hc: nat, reserved: seq<seq<ReservedSlot>>) {
    |ports| == |reserved| && forall q :: 0 <= q < |reserved| ==> ReservedChained(reserved[q], hc)
  }

  predicate Cursors(reserved: seq<seq<ReservedSlot>>, cursors: seq<nat>) {
    |cursors| == |reserved| && forall q :: 0 <= q < |reserved| ==> cursors[q] <= |reserved[q]|
  }

  predicate TrackersOk(flows: map<nat, Flow>, trackers: map<nat, Tracker>, hc: nat) {
    forall f :: f in trackers ==> f in flows && TrackerOk(trackers[f], flows[f], hc)
  }

  /**
   * The queue the scan picks holds the earliest unprocessed slot of all queues, and no lower
   * queue has an unprocessed slot starting at the same tick; the scan finds nothing exactly
   * when every queue is used up.
   */
  lemma EarliestSlotFirst(reserved: seq<seq<ReservedSlot>>, hc: nat, cursors: seq<nat>)
    requires Cursors(reserved, cursors) && forall q :: 0 <= q < |reserved| ==> ReservedChained(reserved[q], hc)
    ensures var m := MinScan(NextStarts(reserved, cursors, hc), hc, |reserved|);
      (m.0 == hc <==> forall q :: 0 <= q < |reserved| ==> cursors[q] == |reserved[q]|) &&
      (m.0 < hc ==>
        m.1 < |reserved| && cursors[m.1] < |reserved[m.1]| && reserved[m.1][cursors[m.1]].start == m.0 &&
        forall q, k :: 0 <= q < |reserved| && cursors[q] <= k < |reserved[q]| ==>
          m.0 <= reserved[q][k].start && (q < m.1 ==> m.0 < reserved[q][k].start))
  {
    var ns := NextStarts(reserved, cursors, hc);
    var m := MinScan(ns, hc, |reserved|);
    forall q, k | 0 <= q < |reserved| && cursors[q] <= k < |reserved[q]|
      ensures ns[q] <= reserved[q][k].start < hc
    {
      if cursors[q] < k {
        ReservedChainedSorted(reserved[q], hc, cursors[q], k);
      }
    }
    forall q | 0 <= q < |reserved| ensures ns[q] < hc <==> cursors[q] < |reserved[q]| {
    }
  }

  /** Every slot before the cursors belongs to a flow that has a tracker. */
  predicate Visited(reserved: seq<seq<ReservedSlot>>, cursors: seq<nat>, trackers: map<nat, Tracker>)
    requires Cursors(reserved, cursors)
  {
    forall q, k :: 0 <= q < |reserved| && 0 <= k < cursors[q] ==> reserved[q][k].flow in trackers
  }

  datatype Outcome = Finished(trackers: map<nat, Tracker>) | Failed(violation: Violation)

  /** Recording a processed slot's tracker and moving past the slot keeps the scan's invariants. */
  lemma MoveKeeps(flows: map<nat, Flow>, hc: nat, reserved: seq<seq<ReservedSlot>>,
                  trackers: map<nat, Tracker>, cursors: seq<nat>, p: nat, t: Tracker)
    requires Cursors(reserved, cursors) && TrackersOk(flows, trackers, hc)
    requires p < |reserved| && cursors[p] < |reserved[p]|
    requires reserved[p][cursors[p]].flow in flows && TrackerOk(t, flows[reserved[p][cursors[p]].flow], hc)
    ensures var trackers', cursors' := trackers[reserved[p][cursors[p]].flow := t], cursors[p := cursors[p] + 1];
      Cursors(reserved, cursors') && TrackersOk(flows, trackers', hc) &&
      Unvisited(reserved, cursors', |reserved|) < Unvisited(reserved, cursors, |reserved|) &&
      (Visited(reserved, cursors, trackers) ==> Visited(reserved, cursors', trackers'))
  {
    AdvanceCounts(reserved, cursors, p, |reserved|);
  }

  /** One pass of check_flow_integrity's main loop: stop, throw, or move past one slot. */
  datatype StepResult = Done | Broken(violation: Violation) | Moved(trackers: map<nat, Tracker>, cursors: seq<nat>)

  /**
   * One pass of the main loop: when a queue has slots left, process the earliest next slot
   * (the lowest queue among equal starts), creating the flow's tracker on its first slot.
   */
  function Step(flows: map<nat, Flow>, ports: seq<Checked<Port>>, hc: nat, reserved: seq<seq<ReservedSlot>>,
                trackers: map<nat, Tracker>, cursors: seq<nat>): (s: StepResult)
    requires Inputs(ports, hc, reserved) && Cursors(reserved, cursors) && TrackersOk(flows, trackers, hc)
    ensures s.Done? ==> forall q :: 0 <= q < |reserved| ==> cursors[q] == |reserved[q]|
    ensures s.Moved? ==>
      Cursors(reserved, s.cursors) && TrackersOk(flows, s.trackers, hc) &&
      Unvisited(reserved, s.cursors, |reserved|) < Unvisited(reserved, cursors, |reserved|) &&
      (Visited(reserved, cursors, trackers) ==> Visited(reserved, s.cursors, s.trackers))
  {
    CountOpenZero(reserved, cursors, |reserved|);
    EarliestSlotFirst(reserved, hc, cursors);
    if CountOpen(reserved, cursors, |reserved|) == 0 then Done
    else
      var m := MinScan(NextStarts(reserved, cursors, hc), hc, |reserved|);
      if m.0 == hc then Done
      else
        StepAtKeeps(flows, ports, hc, reserved, trackers, cursors, m.1);
        StepAt(flows, ports, hc, reserved, trackers, cursors, m.1)
  }

  /** The body of the main loop for the chosen queue p: its next slot goes to its flow's tracker. */
  function StepAt(flows: map<nat, Flow>, ports: seq<Checked<Port>>, hc: nat, reserved: seq<seq<ReservedSlot>>,
                  trackers: map<nat, Tracker>, cursors: seq<nat>, p: nat): StepResult
    requires Inputs(ports, hc, reserved) && Cursors(reserved, cursors) && TrackersOk(flows, trackers, hc)
    requires p < |reserved| && cursors[p] < |reserved[p]|
  {
    var c := cursors[p];
    var slot := reserved[p][c];
    if slot.flow !in flows then Broken(Violation(UnknownFlow, p, c))
    else if ports[p].Fail? then Broken(Violation(ports[p].rule, p, c))
    else
      var flow := flows[slot.flow];
      var created := if slot.flow in trackers then Pass(trackers[slot.flow]) else NewTracker(hc, flow);
      if created.Fail? then Broken(Violation(created.rule, p, c))
      else
        assert TrackerOk(created.value, flow, hc) by {
          if slot.flow !in trackers {
            NewTrackerOk(hc, flow);
          }
        }
        var processed := ProcessSlot(created.value, slot, flow, ports[p].value);
        if processed.Fail? then Broken(Violation(processed.rule, p, c))
        else Moved(trackers[slot.flow := processed.value], cursors[p := c + 1])
  }

  /**
   * Serving one slot keeps the cursors and the trackers well formed, leaves fewer slots to visit,
   * and keeps every visited slot's flow tracked.
   */
  lemma StepAtKeeps(flows: map<nat, Flow>, ports: seq<Checked<Port>>, hc: nat, reserved: seq<seq<ReservedSlot>>,
                    trackers: map<nat, Tracker>, cursors: seq<nat>, p: nat)
    requires Inputs(ports, hc, reserved) && Cursors(reserved, cursors) && TrackersOk(flows, trackers, hc)
    requires p < |reserved| && cursors[p] < |reserved[p]|
    ensures var s := StepAt(flows, ports, hc, reserved, trackers, cursors, p);
      !s.Done? &&
      (s.Moved? ==>
        Cursors(reserved, s.cursors) && TrackersOk(flows, s.trackers, hc) &&
        Unvisited(reserved, s.cursors, |reserved|) < Unvisited(reserved, cursors, |reserved|) &&
        (Visited(reserved, cursors, trackers) ==> Visited(reserved, s.cursors, s.trackers)))
  {
    var c := cursors[p];
    var slot := reserved[p][c];
    if slot.flow in flows && ports[p].Pass? {
      var flow := flows[slot.flow];
      var created := if slot.flow in trackers then Pass(trackers[slot.flow]) else NewTracker(hc, flow);
      if created.Pass? {
        if slot.flow !in trackers {
          NewTrackerOk(hc, flow);
        }
        var processed := ProcessSlot(created.value, slot, flow, ports[p].value);
        if processed.Pass? {
          ProcessSlotKeepsTracker(created.value, slot, flow, ports[p].value, hc);
          MoveKeeps(flows, hc, reserved, trackers, cursors, p, processed.value);
        }
      }
    }
  }

  /** The main loop of check_flow_integrity from a given state, up to its end or first throw. */
  function Integrity(flows: map<nat, Flow>, ports: seq<Checked<Port>>, hc: nat, reserved: seq<seq<ReservedSlot>>,
                     trackers: map<nat, Tracker>, cursors: seq<nat>): Outcome
    requires Inputs(ports, hc, reserved) && Cursors(reserved, cursors) && TrackersOk(flows, trackers, hc)
    decreases Unvisited(reserved, cursors, |reserved|)
  {
    match Step(flows, ports, hc, reserved, trackers, cursors)
    case Done => Finished(trackers)
    case Broken(v) => Failed(v)
    case Moved(trackers', cursors') => Integrity(flows, ports, hc, reserved, trackers', cursors')
  }

  /** The scan starts with every cursor at its queue's first slot and no trackers. */
  function Start(reserved: seq<seq<ReservedSlot>>): (cursors: seq<nat>)
    ensures Cursors(reserved, cursors)
  {
    seq(|reserved|, _ => 0)
  }

  function Unfinished(trackers: map<nat, Tracker>): bool {
    exists f :: f in trackers && trackers[f].state != FlowClosed
  }

  /** What check_flow_integrity reports: the first broken rule, or a flow left unfinished. */
  function IntegrityResult(flows: map<nat, Flow>, ports: seq<Checked<Port>>, hc: nat, reserved: seq<seq<ReservedSlot>>): Option<Violation>
    requires Inputs(ports, hc, reserved)
  {
    match Integrity(flows, ports, hc, reserved, map[], Start(reserved))
    case Failed(v) => Some(v)
    case Finished(trackers) => if Unfinished(trackers) then Some(Violation(FlowUnfinished, 0, 0)) else None
  }

  /** The initialisation loop: each queue's first start, or the hyper-cycle for an empty queue. */
  method InitialStarts(reserved: seq<seq<ReservedSlot>>, hc: nat) returns (nextStarts: seq<nat>, open: nat)
    ensures nextStarts == NextStarts(reserved, Start(reserved), hc)
    ensures open == CountOpen(reserved, Start(reserved), |reserved|)
  {
    var cursors := Start(reserved);
    open := |reserved|;
    nextStarts := seq(|reserved|, _ => 0);
    var q := 0;
    while q < |reserved|
      invariant q <= |reserved| && |nextStarts| == |reserved|
      invariant forall j :: 0 <= j < q ==> nextStarts[j] == NextStarts(reserved, cursors, hc)[j]
      invariant open + q == |reserved| + CountOpen(reserved, cursors, q)
    {
      if |reserved[q]| == 0 {
        nextStarts := nextStarts[q := hc];
        open := open - 1;
      } else {
        nextStarts := nextStarts[q := reserved[q][0].start];
      }
      q := q + 1;
    }
  }

  /** The search for the queue with the earliest next slot. */
  method EarliestQueue(nextStarts: seq<nat>, hc: nat) returns (minimum: nat, at: nat)
    ensures (minimum, at) == MinScan(nextStarts, hc, |nextStarts|)
  {
    minimum := hc;
    at := 0;
    var p := 0;
    while p < |nextStarts|
      invariant p <= |nextStarts| && (minimum, at) == MinScan(nextStarts, hc, p)
    {
      if nextStarts[p] < minimum {
        minimum := nextStarts[p];
        at := p;
      }
      p := p + 1;
    }
  }

  /** Moving queue p's cursor past its current slot, with the next start and the open count. */
  method AdvanceCursor(reserved: seq<seq<ReservedSlot>>, hc: nat, cursors: seq<nat>, nextStarts: seq<nat>, open: nat, p: nat)
    returns (cursors': seq<nat>, nextStarts': seq<nat>, open': nat)
    requires Cursors(reserved, cursors) && p < |reserved| && cursors[p] < |reserved[p]|
    requires nextStarts == NextStarts(reserved, cursors, hc) && open == CountOpen(reserved, cursors, |reserved|)
    ensures cursors' == cursors[p := cursors[p] + 1] && Cursors(reserved, cursors')
    ensures nextStarts' == NextStarts(reserved, cursors', hc) && open' == CountOpen(reserved, cursors', |reserved|)
    ensures Unvisited(reserved, cursors', |reserved|) < Unvisited(reserved, cursors, |reserved|)
  {
    AdvanceCounts(reserved, cursors, p, |reserved|);
    var c := cursors[p] + 1;
    cursors' := cursors[p := c];
    if |reserved[p]| <= c {
      nextStarts' := nextStarts[p := hc];
      open' := open - 1;
    } else {
      nextStarts' := nextStarts[p := reserved[p][c].start];
      open' := open;
    }
  }

  /**
   * The loop body of check_flow_integrity for the chosen queue: fetch the slot's flow, look up
   * the queue's ports, create or fetch the tracker, process the slot.
   */
  method ServeSlot(flows: map<nat, Flow>, w: Wiring, hc: nat, reserved: seq<seq<ReservedSlot>>,
                   trackers: map<nat, Tracker>, cursors: seq<nat>, at: nat) returns (step: StepResult)
    requires WiringOk(w) && Inputs(PortTable(w, |reserved|), hc, reserved)
    requires Cursors(reserved, cursors) && TrackersOk(flows, trackers, hc)
    requires at < |reserved| && cursors[at] < |reserved[at]|
    ensures step == StepAt(flows, PortTable(w, |reserved|), hc, reserved, trackers, cursors, at)
    ensures step.Moved? ==> step.cursors == cursors[at := cursors[at] + 1]
  {
    var c := cursors[at];
    var slot := reserved[at][c];
    if slot.flow !in flows {
      return Broken(Violation(UnknownFlow, at, c));
    }
    var flow := flows[slot.flow];
    var port := FindPorts(w, at);
    if port.Fail? {
      return Broken(Violation(port.rule, at, c));
    }
    var t;
    if slot.flow in trackers {
      t := trackers[slot.flow];
    } else {
      var created := CreateFlowTracker(hc, flow);
      if created.Fail? {
        return Broken(Violation(created.rule, at, c));
      }
      t := created.value;
      NewTrackerOk(hc, flow);
    }
    var processed := ProcessSlot(t, slot, flow, port.value);
    if processed.Fail? {
      return Broken(Violation(processed.rule, at, c));
    }
    step := Moved(trackers[slot.flow := processed.value], cursors[at := c + 1]);
  }

  /** One pass of the main loop: find the queue with the earliest next slot and serve that slot. */
  method ServeEarliest(flows: map<nat, Flow>, w: Wiring, hc: nat, reserved: seq<seq<ReservedSlot>>,
                       trackers: map<nat, Tracker>, cursors: seq<nat>, nextStarts: seq<nat>) returns (step: StepResult, at: nat)
    requires WiringOk(w) && Inputs(PortTable(w, |reserved|), hc, reserved)
    requires Cursors(reserved, cursors) && TrackersOk(flows, trackers, hc)
    requires nextStarts == NextStarts(reserved, cursors, hc) && CountOpen(reserved, cursors, |reserved|) > 0
    ensures step == Step(flows, PortTable(w, |reserved|), hc, reserved, trackers, cursors)
    ensures step.Moved? ==> at < |reserved| && cursors[at] < |reserved[at]| && step.cursors == cursors[at := cursors[at] + 1]
  {
    var minimum;
    minimum, at := EarliestQueue(nextStarts, hc);
    EarliestSlotFirst(reserved, hc, cursors);
    if minimum == hc {
      return Done, at;
    }
    step := ServeSlot(flows, w, hc, reserved, trackers, cursors, at);
  }

  /** check_flow_integrity, looking up each served slot's flow and queue in the graph. */
  method CheckFlowIntegrity(flows: map<nat, Flow>, w: Wiring, hc: nat, reserved: seq<seq<ReservedSlot>>)
    returns (r: Option<Violation>)
    requires WiringOk(w) && Inputs(PortTable(w, |reserved|), hc, reserved)
    ensures r == IntegrityResult(flows, PortTable(w, |reserved|), hc, reserved)
  {
    ghost var ports := PortTable(w, |reserved|);
    var trackers: map<nat, Tracker> := map[];
    var cursors := Start(reserved);
    var nextStarts, open := InitialStarts(reserved, hc);
    while open > 0
      invariant Cursors(reserved, cursors) && TrackersOk(flows, trackers, hc)
      invariant nextStarts == NextStarts(reserved, cursors, hc)
      invariant open == CountOpen(reserved, cursors, |reserved|)
      invariant Integrity(flows, ports, hc, reserved, trackers, cursors) == Integrity(flows, ports, hc, reserved, map[], Start(reserved))
      decreases Unvisited(reserved, cursors, |reserved|)
    {
      var step, at := ServeEarliest(flows, w, hc, reserved, trackers, cursors, nextStarts);
      if step.Done? {
        break;
      }
      if step.Broken? {
        return Some(step.violation);
      }
      trackers := step.trackers;
      cursors, nextStarts, open := AdvanceCursor(reserved, hc, cursors, nextStarts, open, at);
    }
    if exists f :: f in trackers && trackers[f].state != FlowClosed {
      return Some(Violation(FlowUnfinished, 0, 0));
    }
    return None;
  }

  // ---------------------------------------------------------------------------
  // What the scan establishes

  lemma {:induction false} IntegrityTracksAll(flows: map<nat, Flow>, ports: seq<Checked<Port>>, hc: nat, reserved: seq<seq<ReservedSlot>>,
                                              trackers: map<nat, Tracker>, cursors: seq<nat>)
    requires Inputs(ports, hc, reserved) && Cursors(reserved, cursors) && TrackersOk(flows, trackers, hc)
    requires Visited(reserved, cursors, trackers)
    ensures var o := Integrity(flows, ports, hc, reserved, trackers, cursors);
      o.Finished? ==>
        (TrackersOk(flows, o.trackers, hc) &&
         forall q, k :: 0 <= q < |reserved| && 0 <= k < |reserved[q]| ==> reserved[q][k].flow in o.trackers)
    decreases Unvisited(reserved, cursors, |reserved|)
  {
    var s := Step(flows, ports, hc, reserved, trackers, cursors);
    if s.Moved? {
      IntegrityTracksAll(flows, ports, hc, reserved, s.trackers, s.cursors);
    }
  }

  /**
   * A schedule check_flow_integrity accepts delivers, for every flow with a reserved slot, one
   * frame in every period window of the hyper-cycle, each along a loop-free route from the
   * flow's source to its destination.
   */
  lemma AcceptedFlowsDelivered(flows: map<nat, Flow>, ports: seq<Checked<Port>>, hc: nat, reserved: seq<seq<ReservedSlot>>)
    requires Inputs(ports, hc, reserved) && IntegrityResult(flows, ports, hc, reserved) == None
    ensures var o := Integrity(flows, ports, hc, reserved, map[], Start(reserved));
      o.Finished? &&
      forall q, k :: 0 <= q < |reserved| && 0 <= k < |reserved[q]| ==>
        reserved[q][k].flow in flows && reserved[q][k].flow in o.trackers && Delivered(o.trackers[reserved[q][k].flow], flows[reserved[q][k].flow], hc)
  {
    IntegrityTracksAll(flows, ports, hc, reserved, map[], Start(reserved));
    var o := Integrity(flows, ports, hc, reserved, map[], Start(reserved));
    forall f | f in o.trackers ensures Delivered(o.trackers[f], flows[f], hc) {
      assert !(o.trackers[f].state != FlowClosed);
      ClosedTrackerDelivered(o.trackers[f], flows[f], hc);
    }
  }

  /** Every frame of the flow, one per period of the hyper-cycle, took a loop-free route. */
  predicate Delivered(t: Tracker, flow: Flow, hc: nat) {
    t.state == FlowClosed && flow.period >= 1 && |t.strands| * flow.period == hc &&
    forall i :: 0 <= i < |t.strands| ==> Route(t.strands[i].path, flow)
  }

  lemma ClosedTrackerDelivered(t: Tracker, flow: Flow, hc: nat)
    requires TrackerOk(t, flow, hc) && t.state == FlowClosed
    ensures Delivered(t, flow, hc)
  {
    assert hc == flow.period * (hc / flow.period);
  }

  // ---------------------------------------------------------------------------
  // verifySchedule

  /**
   * What verifySchedule reports: the four checks in order, the first violation found. Each
   * check looks up the ports of every queue it visits in the graph's queues w.
   */
  function ScheduleResult(flows: map<nat, Flow>, w: Wiring, hc: nat,
                          free: seq<seq<FreeSlot>>, reserved: seq<seq<ReservedSlot>>): Option<Violation>
    requires WiringOk(w) && forall q :: 0 <= q < |free| ==> SizeTFree(free[q])
  {
    var fv := FreeViolation(PortTable(w, |free|), free, hc, 0);
    if fv.Some? then fv
    else
      var rv := ReservedViolation(PortTable(w, |reserved|), reserved, hc, 0);
      if rv.Some? then rv
      else
        var iv := InverseViolation(PortTable(w, |free|), free, reserved, hc);
        if iv.Some? then iv
        else
          ReservedViolationFrom(PortTable(w, |reserved|), reserved, hc, 0);
          IntegrityResult(flows, PortTable(w, |reserved|), hc, reserved)
  }

  /** The queues of a graph, as the verifier's lookups see them. */
  function WiringOf(graph: MultiLayeredGraph): Wiring
    reads graph
  {
    Wiring(graph.offsets, graph.edges)
  }

  /** A valid graph's queues have well-formed offsets and ids equal to their indices. */
  lemma ValidGraphWiring(g: MultiLayeredGraph)
    requires g.Valid()
    ensures CsrOk(WiringOf(g)) && IdsAreIndices(WiringOf(g))
  {
    forall d | 0 <= d < |g.offsets| ensures g.offsets[d] <= |g.edges| {
      OffsetsMonotone(g.offsets, d, |g.offsets| - 1);
    }
  }

  /** A graph built from the neighbour lists adj: device d's queues lead to the devices of adj[d]. */
  ghost predicate BuiltFrom(g: MultiLayeredGraph, adj: seq<seq<nat>>)
    reads g
  {
    g.Valid() && g.NumberOfNetworkNodes() == |adj| &&
    forall d :: 0 <= d < |adj| ==> InputParser.DeviceFrom(g, d, adj[d])
  }

  /** The queue q of device s leads to one of s's neighbours. */
  lemma QueueLeadsToNeighbour(g: MultiLayeredGraph, adj: seq<seq<nat>>, s: nat, q: nat)
    requires BuiltFrom(g, adj) && CsrOk(WiringOf(g)) && Owner(WiringOf(g), s, q)
    ensures g.edges[q].destination in adj[s]
  {
    assert InputParser.DeviceFrom(g, s, adj[s]);
    var qs := g.EgressQueuesOf(s);
    var ds := InputParser.Destinations(qs);
    assert qs[q - g.offsets[s]] == g.edges[q];
    assert ds[q - g.offsets[s]] == g.edges[q].destination;
    assert g.edges[q].destination in multiset(adj[s]) by {
      assert g.edges[q].destination in multiset(ds);
    }
  }

  /** Device d has a queue to each of its neighbours. */
  lemma NeighbourReached(g: MultiLayeredGraph, adj: seq<seq<nat>>, d: nat, s: nat)
    requires BuiltFrom(g, adj) && CsrOk(WiringOf(g)) && d < |adj| && s in adj[d]
    ensures Reaches(WiringOf(g), d, s)
  {
    assert InputParser.DeviceFrom(g, d, adj[d]);
    var qs := g.EgressQueuesOf(d);
    var ds := InputParser.Destinations(qs);
    assert s in ds by {
      assert s in multiset(adj[d]);
      assert s in multiset(ds);
    }
    var k :| 0 <= k < |ds| && ds[k] == s;
    assert QueuesOf(WiringOf(g), d)[k] == qs[k];
  }

  /**
   * A graph built from symmetric neighbour lists passes every lookup of the verifier: its
   * queues lead to devices of the graph, and it is full duplex, so no port lookup throws.
   */
  lemma SymmetricGraphLooksUp(g: MultiLayeredGraph, adj: seq<seq<nat>>)
    requires BuiltFrom(g, adj) && InputParser.Symmetric(adj)
    ensures WiringOk(WiringOf(g)) && FullDuplex(WiringOf(g))
    ensures forall q :: 0 <= q < |g.edges| ==> PortsOf(WiringOf(g), q).Pass?
  {
    var w := WiringOf(g);
    ValidGraphWiring(g);
    forall i | 0 <= i < |w.edges| ensures w.edges[i].destination < |w.offsets| - 1 {
      var s := OwnerFrom(w, i, 0);
      QueueLeadsToNeighbour(g, adj, s, i);
      var k :| 0 <= k < |adj[s]| && adj[s][k] == w.edges[i].destination;
    }
    assert WiringOk(w);
    forall s: nat, q: nat | Owner(w, s, q) ensures Reaches(w, w.edges[q].destination, s) {
      QueueLeadsToNeighbour(g, adj, s, q);
      var k :| 0 <= k < |adj[s]| && adj[s][k] == w.edges[q].destination;
      NeighbourReached(g, adj, w.edges[q].destination, s);
    }
    FullDuplexIff(w);
  }

  /**
   * The graph parseNetworkGraph builds passes every lookup of the verifier: each edge of the
   * input is entered in both directions, so the graph is full duplex.
   */
  lemma ParsedGraphLooksUp(lines: seq<seq<char>>, g: MultiLayeredGraph)
    requires g.Valid() && g.NumberOfNetworkNodes() == |InputParser.Adjacency(lines)|
    requires forall d :: 0 <= d < |InputParser.Adjacency(lines)| ==>
      InputParser.DeviceFrom(g, d, InputParser.Adjacency(lines)[d])
    ensures WiringOk(WiringOf(g)) && FullDuplex(WiringOf(g))
    ensures forall q :: 0 <= q < |g.edges| ==> PortsOf(WiringOf(g), q).Pass?
  {
    InputParser.BuildShape(InputParser.EdgeList(lines));
    SymmetricGraphLooksUp(g, InputParser.Adjacency(lines));
  }

  /** verifySchedule: the slot-order checks, the inverse check, then the flow integrity check. */
  method VerifySchedule(graph: MultiLayeredGraph, hc: nat,
                        free: seq<seq<FreeSlot>>, reserved: seq<seq<ReservedSlot>>) returns (r: Option<Violation>)
    requires WiringOk(WiringOf(graph)) && forall q :: 0 <= q < |free| ==> SizeTFree(free[q])
    ensures r == ScheduleResult(graph.flows, WiringOf(graph), hc, free, reserved)
  {
    var w := Wiring(graph.offsets, graph.edges);
    r := CheckFreeSlotOrder(w, hc, free);
    if r.Some? {
      return;
    }
    r := CheckReservedSlotOrder(w, hc, reserved);
    if r.Some? {
      return;
    }
    r := CheckSlotsForInverses(w, hc, free, reserved);
    if r.Some? {
      return;
    }
    ReservedViolationFrom(PortTable(w, |reserved|), reserved, hc, 0);
    r := CheckFlowIntegrity(graph.flows, w, hc, reserved);
  }

  /**
   * An accepted schedule: every queue's ports resolve in the graph, its free list is valid, its
   * reserved list is ordered and pairwise disjoint, the inverse walk reaches the hyper-cycle,
   * every reserved slot belongs to a flow of the graph, and every such flow delivers one frame
   * per period along a loop-free route.
   */
  lemma AcceptedSchedule(flows: map<nat, Flow>, w: Wiring, hc: nat,
                         free: seq<seq<FreeSlot>>, reserved: seq<seq<ReservedSlot>>)
    requires WiringOk(w) && forall q :: 0 <= q < |free| ==> SizeTFree(free[q])
    requires ScheduleResult(flows, w, hc, free, reserved) == None
    ensures |free| == |reserved|
    ensures forall q :: 0 <= q < |free| ==>
      PortsOf(w, q).Pass? && FreeListValid(free[q], hc) && ReservedListValid(reserved[q], hc) &&
      WalkAccepts(free[q], reserved[q], hc)
    ensures forall q, k :: 0 <= q < |reserved| && 0 <= k < |reserved[q]| ==> reserved[q][k].flow in flows
    ensures Inputs(PortTable(w, |reserved|), hc, reserved) &&
      IntegrityResult(flows, PortTable(w, |reserved|), hc, reserved) == None
  {
    var ports := PortTable(w, |reserved|);
    FreeViolationFrom(PortTable(w, |free|), free, hc, 0);
    ReservedViolationFrom(ports, reserved, hc, 0);
    InverseViolationFromAccepts(PortTable(w, |free|), free, reserved, hc, 0);
    forall q | 0 <= q < |reserved| ensures ReservedListValid(reserved[q], hc) {
      ReservedChainedIsValid(reserved[q], hc);
    }
    AcceptedFlowsDelivered(flows, ports, hc, reserved);
  }
}
