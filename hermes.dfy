/**
 * The simplified HERMES scheduler of src/solver/scheduler/Hermes.cpp.
 *
 * divPhases numbers the egress queues backwards along the paths: unused queues get phase 1,
 * and in round phi every flow proposes the last queue of its path that has no phase yet (or
 * the queue after it, if that one already got phi); the proposal is taken unless another
 * configuration through that queue proposes a different one.  After 1000 rounds it gives up.
 * schedule then walks the phases upwards and places every frame of every configuration on
 * each queue as late as possible (hermesPlacement), before the deadline and before the frame's
 * slot on the next queue of its path.
 */
module HermesScheduler {
  import opened Optional
  import opened Slots
  import opened UtilFunctions
  import opened UtilizationList
  import opened Graph
  import opened Placement

  // ---------------------------------------------------------------------------
  // getNextPathSegmentForPhase

  predicate OnQueues(path: seq<nat>, n: nat) {
    forall k :: 0 <= k < |path| ==> path[k] < n
  }

  /** std::ranges::find over the reversed path: the last position whose queue has phase 0. */
  function LastUnphased(phases: seq<nat>, path: seq<nat>): (r: Option<nat>)
    requires OnQueues(path, |phases|)
    ensures r.None? <==> forall k :: 0 <= k < |path| ==> phases[path[k]] != 0
    ensures r.Some? ==> r.value < |path| && phases[path[r.value]] == 0
                        && forall k :: r.value < k < |path| ==> phases[path[k]] != 0
    decreases |path|
  {
    if path == [] then None
    else if phases[path[|path| - 1]] == 0 then Some(|path| - 1)
    else LastUnphased(phases, path[..|path| - 1])
  }

  /** One step of the search from the end: the queue before position i has a phase, or it is the one found. */
  lemma LastUnphasedPrefix(phases: seq<nat>, path: seq<nat>, i: nat)
    requires OnQueues(path, |phases|) && 0 < i <= |path|
    ensures LastUnphased(phases, path[..i]) ==
              if phases[path[i - 1]] == 0 then Some(i - 1) else LastUnphased(phases, path[..i - 1])
  {
    assert path[..i][..i - 1] == path[..i - 1];
  }

  /**
   * getNextPathSegmentForPhase: nothing when every queue of the path has a phase; otherwise the
   * last queue without one, or the queue after it when that one already has phase phi.
   */
  function NextSegment(phases: seq<nat>, path: seq<nat>, phi: nat): Option<nat>
    requires OnQueues(path, |phases|)
  {
    match LastUnphased(phases, path)
    case None => None
    case Some(i) => if i + 1 < |path| && phases[path[i + 1]] == phi then Some(path[i + 1]) else Some(path[i])
  }

  /** The segment is a queue of the path that has no phase yet or has phase phi; there is one unless every queue has a phase. */
  lemma NextSegmentOnPath(phases: seq<nat>, path: seq<nat>, phi: nat)
    requires OnQueues(path, |phases|)
    ensures NextSegment(phases, path, phi).None? <==> forall k :: 0 <= k < |path| ==> phases[path[k]] != 0
    ensures NextSegment(phases, path, phi).Some? ==>
              var x := NextSegment(phases, path, phi).value;
              x in path && (phases[x] == 0 || phases[x] == phi)
  {
  }

  // ---------------------------------------------------------------------------
  // divPhases

  predicate ConfigsOnQueues(configs: map<nat, Configuration>, n: nat) {
    forall c :: c in configs ==> OnQueues(configs[c].path, n)
  }

  /** The any_of of divPhases: some configuration through the segment proposes a different segment. */
  predicate Delayed(phases: seq<nat>, configs: map<nat, Configuration>, seg: nat, phi: nat)
    requires ConfigsOnQueues(configs, |phases|)
  {
    exists c :: c in configs && Proposes(phases, configs, c, seg, phi)
  }

  /** Configuration c runs through seg but proposes another segment in round phi. */
  predicate Proposes(phases: seq<nat>, configs: map<nat, Configuration>, c: nat, seg: nat, phi: nat)
    requires ConfigsOnQueues(configs, |phases|)
  {
    c in configs && VectorContains(configs[c].path, seg)
    && NextSegment(phases, configs[c].path, phi).Some? && NextSegment(phases, configs[c].path, phi).value != seg
  }

  /** One flow's turn in round phi. */
  function Assign(phases: seq<nat>, configs: map<nat, Configuration>, path: seq<nat>, phi: nat): (r: seq<nat>)
    requires ConfigsOnQueues(configs, |phases|) && OnQueues(path, |phases|)
    ensures |r| == |phases|
  {
    match NextSegment(phases, path, phi)
    case None => phases
    case Some(seg) => if Delayed(phases, configs, seg, phi) then phases else phases[seg := phi]
  }

  /**
   * A turn only gives phase phi to the segment the flow proposes, and only when no configuration
   * through it proposes another one; a queue that has a phase keeps it.
   */
  lemma AssignOnlyUndelayed(phases: seq<nat>, configs: map<nat, Configuration>, path: seq<nat>, phi: nat, q: nat)
    requires ConfigsOnQueues(configs, |phases|) && OnQueues(path, |phases|) && q < |phases|
    ensures Assign(phases, configs, path, phi)[q] == phases[q] || Assign(phases, configs, path, phi)[q] == phi
    ensures Assign(phases, configs, path, phi)[q] != phases[q] ==>
              phases[q] == 0 && NextSegment(phases, path, phi) == Some(q) && !Delayed(phases, configs, q, phi)
  {
    NextSegmentOnPath(phases, path, phi);
  }

  /** Round phi: every flow's first configuration takes its turn, in the flow map's order. */
  function Round(phases: seq<nat>, configs: map<nat, Configuration>, paths: seq<seq<nat>>, phi: nat): (r: seq<nat>)
    requires ConfigsOnQueues(configs, |phases|) && forall k :: 0 <= k < |paths| ==> OnQueues(paths[k], |phases|)
    ensures |r| == |phases|
    decreases |paths|
  {
    if paths == [] then phases
    else Assign(Round(phases, configs, paths[..|paths| - 1], phi), configs, paths[|paths| - 1], phi)
  }

  /** A round leaves every phase as it was or sets it to phi, and never changes a phase already given. */
  lemma {:induction false} RoundKeepsPhases(phases: seq<nat>, configs: map<nat, Configuration>, paths: seq<seq<nat>>, phi: nat)
    requires ConfigsOnQueues(configs, |phases|) && forall k :: 0 <= k < |paths| ==> OnQueues(paths[k], |phases|)
    ensures forall q :: 0 <= q < |phases| ==>
              (Round(phases, configs, paths, phi)[q] == phases[q] || Round(phases, configs, paths, phi)[q] == phi)
              && (phases[q] != 0 ==> Round(phases, configs, paths, phi)[q] == phases[q])
    decreases |paths|
  {
    if paths != [] {
      var pre := Round(phases, configs, paths[..|paths| - 1], phi);
      RoundKeepsPhases(phases, configs, paths[..|paths| - 1], phi);
      forall q | 0 <= q < |phases| {
        AssignOnlyUndelayed(pre, configs, paths[|paths| - 1], phi, q);
      }
    }
  }

  predicate Complete(phases: seq<nat>) {
    forall q :: 0 <= q < |phases| ==> phases[q] != 0
  }

  /** The while loop of divPhases from round phi on: None once phi passed 1000 with a queue still unphased. */
  function PhaseLoop(phases: seq<nat>, configs: map<nat, Configuration>, paths: seq<seq<nat>>, phi: nat): (r: Option<seq<nat>>)
    requires 1 <= phi <= 1001
    requires ConfigsOnQueues(configs, |phases|) && forall k :: 0 <= k < |paths| ==> OnQueues(paths[k], |phases|)
    decreases 1001 - phi
  {
    if Complete(phases) then Some(phases)
    else
      var next := Round(phases, configs, paths, phi);
      if phi > 1000 then None else PhaseLoop(next, configs, paths, phi + 1)
  }

  /**
   * A phase assignment that is returned gives every queue a phase between 1 and 1000, and a
   * queue keeps the phase it had when the loop started.
   */
  lemma {:induction false} PhaseLoopAssignsAll(phases: seq<nat>, configs: map<nat, Configuration>, paths: seq<seq<nat>>, phi: nat)
    requires 1 <= phi <= 1001
    requires ConfigsOnQueues(configs, |phases|) && forall k :: 0 <= k < |paths| ==> OnQueues(paths[k], |phases|)
    requires forall q :: 0 <= q < |phases| ==> phases[q] < phi || phases[q] <= 1
    ensures PhaseLoop(phases, configs, paths, phi).Some? ==>
              var r := PhaseLoop(phases, configs, paths, phi).value;
              |r| == |phases| && Complete(r)
              && (forall q :: 0 <= q < |r| ==> 1 <= r[q] <= 1000)
              && (forall q :: 0 <= q < |r| && phases[q] != 0 ==> r[q] == phases[q])
    decreases 1001 - phi
  {
    if !Complete(phases) && phi <= 1000 {
      var next := Round(phases, configs, paths, phi);
      RoundKeepsPhases(phases, configs, paths, phi);
      PhaseLoopAssignsAll(next, configs, paths, phi + 1);
    }
  }

  /** The start of divPhases: phase 1 for every queue no configuration uses, 0 for the others. */
  function InitialPhases(edges: seq<EgressQueue>): (r: seq<nat>)
    ensures |r| == |edges|
    ensures forall q :: 0 <= q < |edges| ==> (r[q] == 1 <==> edges[q].usedBy == []) && (r[q] == 0 <==> edges[q].usedBy != [])
  {
    seq(|edges|, q requires 0 <= q < |edges| => if edges[q].usedBy == [] then 1 else 0)
  }

  /** The paths of the flows' first configurations, in the flow map's order. */
  function FlowPaths(flows: map<nat, Flow>, configs: map<nat, Configuration>, order: seq<nat>): (r: seq<seq<nat>>)
    requires forall k :: 0 <= k < |order| ==> Configured(flows, configs, order[k])
    ensures |r| == |order|
    ensures forall k :: 0 <= k < |order| && Configured(flows, configs, order[k]) ==> r[k] == configs[flows[order[k]].configurations[0]].path
  {
    if order == [] then []
    else
      var id := order[|order| - 1];
      assert Configured(flows, configs, order[|order| - 1]);
      FlowPaths(flows, configs, order[..|order| - 1]) + [configs[flows[id].configurations[0]].path]
  }

  predicate Configured(flows: map<nat, Flow>, configs: map<nat, Configuration>, id: nat) {
    id in flows && |flows[id].configurations| > 0 && flows[id].configurations[0] in configs
  }

  /** divPhases as a value. */
  function DivPhasesResult(edges: seq<EgressQueue>, flows: map<nat, Flow>, configs: map<nat, Configuration>, order: seq<nat>): Option<seq<nat>>
    requires ConfigsOnQueues(configs, |edges|)
    requires forall k :: 0 <= k < |order| ==> Configured(flows, configs, order[k])
  {
    PhaseLoop(InitialPhases(edges), configs, FlowPaths(flows, configs, order), 1)
  }

  predicate DivPhasesSized(edges: seq<EgressQueue>, flows: map<nat, Flow>, configs: map<nat, Configuration>, order: seq<nat>)
    requires ConfigsOnQueues(configs, |edges|)
    requires forall k :: 0 <= k < |order| ==> Configured(flows, configs, order[k])
  {
    var r := DivPhasesResult(edges, flows, configs, order);
    r.Some? ==> |r.value| == |edges|
  }

  /** Every queue gets a phase in 1..1000, and the unused queues keep phase 1. */
  lemma DivPhasesAssignsAll(edges: seq<EgressQueue>, flows: map<nat, Flow>, configs: map<nat, Configuration>, order: seq<nat>)
    requires ConfigsOnQueues(configs, |edges|)
    requires forall k :: 0 <= k < |order| ==> Configured(flows, configs, order[k])
    ensures DivPhasesResult(edges, flows, configs, order).Some? ==>
              var r := DivPhasesResult(edges, flows, configs, order).value;
              |r| == |edges| && (forall q :: 0 <= q < |r| ==> 1 <= r[q] <= 1000)
              && forall q :: 0 <= q < |r| && edges[q].usedBy == [] ==> r[q] == 1
  {
    var paths := FlowPaths(flows, configs, order);
    PhaseLoopAssignsAll(InitialPhases(edges), configs, paths, 1);
  }

  // ---------------------------------------------------------------------------
  // schedule as a function of the utilization list

  /** Every value of the list fits in size_t. */
  predicate SizeTState(st: ListState) {
    Shaped(st)
    && (forall q :: 0 <= q < |st.free| ==> SizeTFree(st.free[q]))
    && (forall q :: 0 <= q < |st.reserved| ==> SizeTSlots(st.reserved[q]))
  }

  /** reserveSlot with a request inside size_t keeps every value of the list inside size_t. */
  lemma ReserveKeepsSizeT(st: ListState, req: Request, flow: nat, config: nat)
    requires SizeTState(st) && QueuesExist(st, req.queue) && req.start <= SizeMax && req.next <= SizeMax
    ensures SizeTState(ReserveState(st, req, flow, config))
  {
    var q := req.queue;
    var l := st.free[q];
    var r := ReserveState(st, req, flow, config);
    match FindContaining(l, req.start, req.next)
    case None =>
    case Some(k) =>
      var c := CarveAt(l, k, req.start, req.next);
      forall j | 0 <= j < |c| ensures c[j].start <= SizeMax && c[j].last <= SizeMax {
        if j < k {
        } else if |c| == |l| - 1 {
          assert c[j] == l[j + 1];
        } else if |c| == |l| {
          if j > k {
            assert c[j] == l[j];
          }
        } else if j > k + 1 {
          assert c[j] == l[j - 1];
        }
      }
    assert SizeTSlots(r.reserved[q]);
  }

  /** Everything schedule reads besides the list: the graph, the hyper-cycle, and two orders it does not fix. */
  datatype Env = Env(
    configs: map<nat, Configuration>,
    flows: map<nat, Flow>,
    hc: nat,
    phases: seq<nat>,
    /** The iteration order of the phase map (each queue once). */
    links: seq<nat>,
    /** used_by of each queue, sorted by the flows' frame utilization (largest first). */
    used: seq<seq<nat>>)

  /** A configuration schedule places on queue q: it and its flow exist, q is on its path, all values fit in size_t. */
  predicate Carries(configs: map<nat, Configuration>, flows: map<nat, Flow>, n: nat, q: nat, c: nat) {
    c in configs && OnQueues(configs[c].path, n) && q in configs[c].path
    && configs[c].flow in flows
    && var flow := flows[configs[c].flow];
       flow.period > 0 && flow.frameSize <= SizeMax
  }

  /** The used_by lists in the order schedule visits them: permutations of the queues' used_by, of configurations each queue carries. */
  predicate UsedOk(configs: map<nat, Configuration>, flows: map<nat, Flow>, edges: seq<EgressQueue>, used: seq<seq<nat>>) {
    |used| == |edges|
    && (forall q :: 0 <= q < |edges| ==> multiset(used[q]) == multiset(edges[q].usedBy))
    && forall q, k :: 0 <= q < |edges| && 0 <= k < |used[q]| ==> Carries(configs, flows, |edges|, q, used[q][k])
  }

  predicate EnvOk(env: Env, n: nat) {
    |env.phases| == n && |env.used| == n && env.hc <= SizeMax
    && (forall k :: 0 <= k < |env.links| ==> env.links[k] < n)
    && forall q, k :: 0 <= q < n && 0 <= k < |env.used[q]| ==> Carries(env.configs, env.flows, n, q, env.used[q][k])
  }

  /** The first reserved slot of the flow on the next queue whose start lies in the frame's period. */
  function InPeriod(slots: seq<ReservedSlot>, deadline: nat, period: nat): (r: Option<ReservedSlot>)
    ensures r.Some? ==> r.value in slots && deadline - period <= r.value.start < deadline
    ensures r.None? ==> forall s :: s in slots ==> !(deadline - period <= s.start < deadline)
  {
    if slots == [] then None
    else if slots[0].start < deadline && slots[0].start >= deadline - period then Some(slots[0])
    else InPeriod(slots[1..], deadline, period)
  }

  /** prev_offset: the deadline on the last hop, else the frame's start on the next queue minus the processing delay. */
  function PrevOffset(st: ListState, path: seq<nat>, q: nat, flow: Flow, deadline: nat): (r: nat)
    requires SizeTState(st) && OnQueues(path, |st.free|) && q in path && deadline <= SizeMax
    ensures r <= SizeMax
  {
    var h := Position(path, q);
    if h + 1 == |path| then deadline
    else
      match InPeriod(SlotsOfFlow(st.reserved[path[h + 1]], flow.id), deadline, flow.period)
      case None => deadline
      case Some(s) => WrapSub(s.start, ProcessingDelay)
  }

  /** latest_offset of frame k: the latest start that still meets the deadline and the next queue. */
  function LatestOffset(st: ListState, path: seq<nat>, q: nat, flow: Flow, k: nat): (r: nat)
    requires SizeTState(st) && OnQueues(path, |st.free|) && q in path && flow.period * (k + 1) <= SizeMax
    requires flow.frameSize <= SizeMax
    ensures r <= SizeMax
  {
    var deadline := flow.period * (k + 1);
    var prev := PrevOffset(st, path, q, flow, deadline);
    WrapSub(WrapSub(Min(deadline, prev), PropagationDelay), TransmissionDelay(flow.frameSize))
  }

  /**
   * As written, the subtractions wrap around: when the frame's slot on the next queue starts less
   * than tx + 5 ticks into the period, the latest offset becomes close to 2^64 and places no bound.
   * Here the next queue's slot starts at tick 10, the frame takes 8 ticks, and the frame lands at
   * tick 92, after its slot on the next queue and after its deadline 100.
   */
  lemma LatestOffsetWraps()
    ensures var flow := Flow(7, 1000, 100, 0, 1, [3]);
            var st := ListState([[FreeSlot(50, 99)], [FreeSlot(0, 9), FreeSlot(18, 99)]],
                                [[], [ReservedSlot(10, 18, 7, 3)]], [[], []]);
            var latest := LatestOffset(st, [0, 1], 0, flow, 0);
            var req := HermesRequest(FreeSlot(50, 99), 0, latest, 8);
            latest == SizeMax - 2 && req.start == 92 && req.start + 8 + PropagationDelay > 100
  {
    var flow := Flow(7, 1000, 100, 0, 1, [3]);
    var st := ListState([[FreeSlot(50, 99)], [FreeSlot(0, 9), FreeSlot(18, 99)]],
                        [[], [ReservedSlot(10, 18, 7, 3)]], [[], []]);
    assert TransmissionDelay(1000) == 8;
    assert Position([0, 1], 0) == 0;
    assert SlotsOfFlow(st.reserved[1], 7) == [ReservedSlot(10, 18, 7, 3)];
    assert PrevOffset(st, [0, 1], 0, flow, 100) == 6;
  }

  /**
   * The latest offset as intended: the frame must leave by the deadline and early enough to be
   * processed before its slot on the next queue; when no such tick exists there is none.
   */
  function CheckedLatest(st: ListState, path: seq<nat>, q: nat, flow: Flow, deadline: nat): (r: Option<nat>)
    requires Shaped(st) && OnQueues(path, |st.free|) && q in path
    ensures r.Some? ==> r.value + PropagationDelay + TransmissionDelay(flow.frameSize) <= deadline
  {
    var h := Position(path, q);
    var bound :=
      if h + 1 == |path| then Some(deadline)
      else
        match InPeriod(SlotsOfFlow(st.reserved[path[h + 1]], flow.id), deadline, flow.period)
        case None => Some(deadline)
        case Some(s) => if s.start >= ProcessingDelay then Some(Min(deadline, s.start - ProcessingDelay)) else None;
    var tx := TransmissionDelay(flow.frameSize);
    if bound.None? || bound.value < PropagationDelay + tx then None
    else Some(bound.value - PropagationDelay - tx)
  }

  /**
   * A frame hermesPlacement sends by the checked latest offset arrives by its deadline, and on a
   * queue before the last it is processed before its slot on the next queue starts.
   */
  lemma CheckedLatestMeetsNextHop(st: ListState, path: seq<nat>, q: nat, flow: Flow, deadline: nat, slot: FreeSlot)
    requires Shaped(st) && OnQueues(path, |st.free|) && q in path
    requires CheckedLatest(st, path, q, flow, deadline).Some?
    requires flow.frameSize <= SizeMax && slot.last <= SizeMax && deadline <= SizeMax
    ensures var tx := TransmissionDelay(flow.frameSize);
            var req := HermesRequest(slot, q, CheckedLatest(st, path, q, flow, deadline).value, tx);
            req.start + tx + PropagationDelay <= deadline
            && var h := Position(path, q);
               h + 1 < |path| ==>
                 var next := InPeriod(SlotsOfFlow(st.reserved[path[h + 1]], flow.id), deadline, flow.period);
                 next.Some? ==> req.start + tx + PropagationDelay + ProcessingDelay <= next.value.start
  {
    var tx := TransmissionDelay(flow.frameSize);
    var latest := CheckedLatest(st, path, q, flow, deadline).value;
    var req := HermesRequest(slot, q, latest, tx);
    assert req.start <= latest;
  }

  lemma FrameDeadlineFits(period: nat, k: nat, hc: nat)
    requires period > 0 && k < hc / period
    ensures period * (k + 1) <= hc
  {
    MulMono(k + 1, hc / period, period);
  }

  /**
   * One frame: hermesPlacement at the (checked) latest offset.  Where no free slot qualifies the
   * source reads past the end of an empty range; the model stops there as a failure.
   */
  function FrameStep(st: ListState, env: Env, q: nat, c: nat, k: nat): (o: Outcome)
    requires SizeTState(st) && q < |st.free| && EnvOk(env, |st.free|) && Carries(env.configs, env.flows, |st.free|, q, c)
    requires k < env.hc / env.flows[env.configs[c].flow].period
    ensures SizeTState(o.state) && |o.state.free| == |st.free|
  {
    var config := env.configs[c];
    var flow := env.flows[config.flow];
    FrameDeadlineFits(flow.period, k, env.hc);
    var tx := TransmissionDelay(flow.frameSize);
    match CheckedLatest(st, config.path, q, flow, flow.period * (k + 1))
    case None => Outcome(false, st)
    case Some(latest) =>
      match LatestCandidate(st.free[q], latest, tx)
      case None => Outcome(false, st)
      case Some(j) =>
        var req := HermesRequest(st.free[q][j], q, latest, tx);
        ReserveKeepsSizeT(st, req, flow.id, config.id);
        HermesOutcome(st, q, latest, flow.frameSize, flow.id, config.id)
  }

  /** Frames k .. count-1 of configuration c on queue q, stopping at the first failure. */
  function FramesFrom(st: ListState, env: Env, q: nat, c: nat, k: nat): (o: Outcome)
    requires SizeTState(st) && q < |st.free| && EnvOk(env, |st.free|) && Carries(env.configs, env.flows, |st.free|, q, c)
    ensures SizeTState(o.state) && |o.state.free| == |st.free|
    decreases env.hc / env.flows[env.configs[c].flow].period - k
  {
    if k >= env.hc / env.flows[env.configs[c].flow].period then Outcome(true, st)
    else
      var o := FrameStep(st, env, q, c, k);
      if !o.ok then o else FramesFrom(o.state, env, q, c, k + 1)
  }

  /** The configurations env.used[q][i..] on queue q. */
  function ConfigsFrom(st: ListState, env: Env, q: nat, i: nat): (o: Outcome)
    requires SizeTState(st) && q < |st.free| && EnvOk(env, |st.free|) && i <= |env.used[q]|
    ensures SizeTState(o.state) && |o.state.free| == |st.free|
    decreases |env.used[q]| - i
  {
    if i == |env.used[q]| then Outcome(true, st)
    else
      var o := FramesFrom(st, env, q, env.used[q][i], 0);
      if !o.ok then o else ConfigsFrom(o.state, env, q, i + 1)
  }

  /** One turn of the configuration loop, with the configuration's requirements spelled out. */
  lemma ConfigsStep(st: ListState, env: Env, q: nat, i: nat)
    requires SizeTState(st) && q < |st.free| && EnvOk(env, |st.free|) && i < |env.used[q]|
    ensures ConfigsFrom(st, env, q, i) ==
              var o := FramesFrom(st, env, q, env.used[q][i], 0);
              if !o.ok then o else ConfigsFrom(o.state, env, q, i + 1)
  {
  }

  /** The queues env.links[i..] that have the given phase. */
  function LinksFrom(st: ListState, env: Env, phase: nat, i: nat): (o: Outcome)
    requires SizeTState(st) && EnvOk(env, |st.free|) && i <= |env.links|
    ensures SizeTState(o.state) && |o.state.free| == |st.free|
    decreases |env.links| - i
  {
    if i == |env.links| then Outcome(true, st)
    else if env.phases[env.links[i]] != phase then LinksFrom(st, env, phase, i + 1)
    else
      var o := ConfigsFrom(st, env, env.links[i], 0);
      if !o.ok then o else LinksFrom(o.state, env, phase, i + 1)
  }

  /** Phases phase .. maxPhi, in ascending order. */
  function PhasesFrom(st: ListState, env: Env, phase: nat, maxPhi: nat): (o: Outcome)
    requires SizeTState(st) && EnvOk(env, |st.free|)
    ensures SizeTState(o.state) && |o.state.free| == |st.free|
    decreases maxPhi + 1 - phase
  {
    if phase > maxPhi then Outcome(true, st)
    else
      var o := LinksFrom(st, env, phase, 0);
      if !o.ok then o else PhasesFrom(o.state, env, phase + 1, maxPhi)
  }

  /** max_element over the phase map. */
  function MaxPhase(phases: seq<nat>): (m: nat)
    requires |phases| > 0
    ensures (exists q :: 0 <= q < |phases| && phases[q] == m) && forall q :: 0 <= q < |phases| ==> phases[q] <= m
  {
    if |phases| == 1 then phases[0]
    else
      var rest := MaxPhase(phases[1..]);
      assert forall q :: 1 <= q < |phases| ==> phases[q] == phases[1..][q - 1];
      if phases[0] >= rest then phases[0] else rest
  }

  /** The solution: one (flow, configuration) pair per configuration, in the configuration map's order. */
  function AllPairs(configs: map<nat, Configuration>, order: seq<nat>): (r: seq<(nat, nat)>)
    requires forall k :: 0 <= k < |order| ==> order[k] in configs
    ensures |r| == |order|
    ensures forall k :: 0 <= k < |order| ==> r[k] == (configs[order[k]].flow, order[k])
  {
    if order == [] then [] else AllPairs(configs, order[..|order| - 1]) + [(configs[order[|order| - 1]].flow, order[|order| - 1])]
  }

  /** Every configuration of the graph appears in the solution exactly once, with its own flow. */
  lemma AllPairsOnePerConfig(configs: map<nat, Configuration>, order: seq<nat>)
    requires ListsKeys(configs.Keys, order)
    ensures forall c :: c in configs ==> (configs[c].flow, c) in AllPairs(configs, order)
    ensures forall k :: 0 <= k < |AllPairs(configs, order)| ==>
              AllPairs(configs, order)[k].1 in configs && AllPairs(configs, order)[k].0 == configs[AllPairs(configs, order)[k].1].flow
    ensures forall j, k :: 0 <= j < k < |AllPairs(configs, order)| ==> AllPairs(configs, order)[j].1 != AllPairs(configs, order)[k].1
  {
    var r := AllPairs(configs, order);
    forall c | c in configs ensures (configs[c].flow, c) in r {
      var k :| 0 <= k < |order| && order[k] == c;
      assert r[k] == (configs[c].flow, c);
    }
    forall j, k | 0 <= j < k < |r| ensures r[j].1 != r[k].1 {
      assert r[j].1 == order[j] && r[k].1 == order[k];
    }
  }

  // ---------------------------------------------------------------------------
  // Scheduling keeps the utilization list consistent

  predicate LargeFrames(env: Env) {
    forall id :: id in env.flows ==> env.flows[id].frameSize >= 125
  }

  /** A frame of at least one tick leaves the list tiled: hermesPlacement either reserves inside a free slot or is not called. */
  lemma FrameStepTiles(st: ListState, env: Env, q: nat, c: nat, k: nat, hc: nat)
    requires SizeTState(st) && q < |st.free| && EnvOk(env, |st.free|) && Carries(env.configs, env.flows, |st.free|, q, c)
    requires k < env.hc / env.flows[env.configs[c].flow].period
    requires TiledState(st, hc) && hc <= SizeMax && LargeFrames(env)
    ensures TiledState(FrameStep(st, env, q, c, k).state, hc)
  {
    var config := env.configs[c];
    var flow := env.flows[config.flow];
    var tx := TransmissionDelay(flow.frameSize);
    FrameDeadlineFits(flow.period, k, env.hc);
    var latest := CheckedLatest(st, config.path, q, flow, flow.period * (k + 1));
    if latest.Some? && LatestCandidate(st.free[q], latest.value, tx).Some? {
      assert FrameStep(st, env, q, c, k) == HermesOutcome(st, q, latest.value, flow.frameSize, flow.id, config.id);
      HermesKeepsTiles(st, q, latest.value, flow.frameSize, hc, flow.id, config.id);
    } else {
      assert FrameStep(st, env, q, c, k).state == st;
    }
  }

  lemma {:induction false} FramesFromTiles(st: ListState, env: Env, q: nat, c: nat, k: nat, hc: nat)
    requires SizeTState(st) && q < |st.free| && EnvOk(env, |st.free|) && Carries(env.configs, env.flows, |st.free|, q, c)
    requires TiledState(st, hc) && hc <= SizeMax && LargeFrames(env)
    ensures TiledState(FramesFrom(st, env, q, c, k).state, hc)
    decreases env.hc / env.flows[env.configs[c].flow].period - k
  {
    if k < env.hc / env.flows[env.configs[c].flow].period {
      var o := FrameStep(st, env, q, c, k);
      FrameStepTiles(st, env, q, c, k, hc);
      if o.ok {
        FramesFromTiles(o.state, env, q, c, k + 1, hc);
      }
    }
  }

  lemma {:induction false} ConfigsFromTiles(st: ListState, env: Env, q: nat, i: nat, hc: nat)
    requires SizeTState(st) && q < |st.free| && EnvOk(env, |st.free|) && i <= |env.used[q]|
    requires TiledState(st, hc) && hc <= SizeMax && LargeFrames(env)
    ensures TiledState(ConfigsFrom(st, env, q, i).state, hc)
    decreases |env.used[q]| - i
  {
    if i < |env.used[q]| {
      var o := FramesFrom(st, env, q, env.used[q][i], 0);
      FramesFromTiles(st, env, q, env.used[q][i], 0, hc);
      if o.ok {
        ConfigsFromTiles(o.state, env, q, i + 1, hc);
      }
    }
  }

  lemma {:induction false} LinksFromTiles(st: ListState, env: Env, phase: nat, i: nat, hc: nat)
    requires SizeTState(st) && EnvOk(env, |st.free|) && i <= |env.links|
    requires TiledState(st, hc) && hc <= SizeMax && LargeFrames(env)
    ensures TiledState(LinksFrom(st, env, phase, i).state, hc)
    decreases |env.links| - i
  {
    if i < |env.links| {
      if env.phases[env.links[i]] != phase {
        LinksFromTiles(st, env, phase, i + 1, hc);
      } else {
        var o := ConfigsFrom(st, env, env.links[i], 0);
        ConfigsFromTiles(st, env, env.links[i], 0, hc);
        if o.ok {
          LinksFromTiles(o.state, env, phase, i + 1, hc);
        }
      }
    }
  }

  /** The whole schedule leaves every queue tiled, whether it succeeds or stops at a frame it cannot place. */
  lemma {:induction false} PhasesFromTiles(st: ListState, env: Env, phase: nat, maxPhi: nat, hc: nat)
    requires SizeTState(st) && EnvOk(env, |st.free|)
    requires TiledState(st, hc) && hc <= SizeMax && LargeFrames(env)
    ensures TiledState(PhasesFrom(st, env, phase, maxPhi).state, hc)
    decreases maxPhi + 1 - phase
  {
    if phase <= maxPhi {
      var o := LinksFrom(st, env, phase, 0);
      LinksFromTiles(st, env, phase, 0, hc);
      if o.ok {
        PhasesFromTiles(o.state, env, phase + 1, maxPhi, hc);
      }
    }
  }

  // ---------------------------------------------------------------------------
  // The scheduler

  /** What schedule works with once the phases are known; the hyper-cycle is folded over the flows in `order`. */
  function HermesEnv(g: MultiLayeredGraph, order: seq<nat>, phases: seq<nat>, links: seq<nat>, used: seq<seq<nat>>): Env
    reads g
    requires forall k :: 0 <= k < |order| ==> order[k] in g.flows
  {
    Env(g.configs, g.flows, HyperCycle(PeriodsOf(g.flows, order)), phases, links, used)
  }

  /** The phase map's iteration order: every queue id 0 .. n-1 once. */
  predicate ListsQueues(links: seq<nat>, n: nat) {
    (forall k :: 0 <= k < |links| ==> links[k] < n)
    && (forall q :: 0 <= q < n ==> q in links)
    && (forall j, k :: 0 <= j < k < |links| ==> links[j] != links[k])
  }

  /** What the source needs of the graph and of the orders it does not fix. */
  predicate Inputs(g: MultiLayeredGraph, order: seq<nat>, configOrder: seq<nat>, links: seq<nat>, used: seq<seq<nat>>)
    reads g
  {
    ListsKeys(g.flows.Keys, order) && ListsKeys(g.configs.Keys, configOrder)
    && ListsQueues(links, |g.edges|)
    && (forall k :: 0 <= k < |order| ==> Configured(g.flows, g.configs, order[k]))
    && ConfigsOnQueues(g.configs, |g.edges|)
    && UsedOk(g.configs, g.flows, g.edges, used)
    && HyperCycle(PeriodsOf(g.flows, order)) <= SizeMax
  }

  class Hermes {
    const graph: MultiLayeredGraph

    constructor (graph: MultiLayeredGraph)
      ensures this.graph == graph
    {
      this.graph := graph;
    }

    /** getNextPathSegmentForPhase: a search from the end of the path. */
    static method NextPathSegment(phases: seq<nat>, path: seq<nat>, phi: nat) returns (r: Option<nat>)
      requires OnQueues(path, |phases|)
      ensures r == NextSegment(phases, path, phi)
    {
      var i := |path|;
      assert path[..i] == path;
      while i > 0 && phases[path[i - 1]] != 0
        invariant 0 <= i <= |path|
        invariant LastUnphased(phases, path) == LastUnphased(phases, path[..i])
      {
        LastUnphasedPrefix(phases, path, i);
        i := i - 1;
      }
      if i == 0 {
        return None;
      }
      LastUnphasedPrefix(phases, path, i);
      if i < |path| && phases[path[i]] == phi {
        return Some(path[i]);
      }
      return Some(path[i - 1]);
    }

    /** The any_of of divPhases, over the configurations in the map's order. */
    method IsDelayed(phases: seq<nat>, seg: nat, phi: nat, configOrder: seq<nat>) returns (d: bool)
      requires ConfigsOnQueues(graph.configs, |phases|) && ListsKeys(graph.configs.Keys, configOrder)
      ensures d == Delayed(phases, graph.configs, seg, phi)
    {
      d := false;
      var i := 0;
      while i < |configOrder| && !d
        invariant 0 <= i <= |configOrder|
        invariant d ==> Delayed(phases, graph.configs, seg, phi)
        invariant !d ==> forall j :: 0 <= j < i ==> !Proposes(phases, graph.configs, configOrder[j], seg, phi)
      {
        var config := graph.configs[configOrder[i]];
        if VectorContains(config.path, seg) {
          var next := NextPathSegment(phases, config.path, phi);
          d := next.Some? && next.value != seg;
          if d {
            assert Proposes(phases, graph.configs, configOrder[i], seg, phi);
          }
        }
        i := i + 1;
      }
      if !d {
        forall c | c in graph.configs ensures !Proposes(phases, graph.configs, c, seg, phi) {
          var k :| 0 <= k < |configOrder| && configOrder[k] == c;
        }
      }
    }

    /** One round of divPhases: every flow's first configuration, in the flow map's order. */
    method PlayRound(phases: seq<nat>, phi: nat, order: seq<nat>, configOrder: seq<nat>) returns (p: seq<nat>)
      requires ConfigsOnQueues(graph.configs, |phases|) && ListsKeys(graph.configs.Keys, configOrder)
      requires forall k :: 0 <= k < |order| ==> Configured(graph.flows, graph.configs, order[k])
      ensures p == Round(phases, graph.configs, FlowPaths(graph.flows, graph.configs, order), phi)
    {
      ghost var paths := FlowPaths(graph.flows, graph.configs, order);
      p := phases;
      var i := 0;
      while i < |order|
        invariant 0 <= i <= |order| && |p| == |phases|
        invariant p == Round(phases, graph.configs, paths[..i], phi)
      {
        assert paths[..i + 1][..i] == paths[..i];
        var config := graph.configs[graph.flows[order[i]].configurations[0]];
        assert config.path == paths[i];
        var seg := NextPathSegment(p, config.path, phi);
        NextSegmentOnPath(p, config.path, phi);
        if seg.Some? {
          var delay := IsDelayed(p, seg.value, phi, configOrder);
          if !delay {
            p := p[seg.value := phi];
          }
        }
        i := i + 1;
      }
      assert paths[..i] == paths;
    }

    /** The any_of of the while condition: some queue has no phase yet. */
    static method AnyUnphased(phases: seq<nat>) returns (b: bool)
      ensures b == !Complete(phases)
    {
      b := false;
      var i := 0;
      while i < |phases| && !b
        invariant 0 <= i <= |phases|
        invariant b == exists q :: 0 <= q < i && phases[q] == 0
      {
        b := phases[i] == 0;
        i := i + 1;
      }
    }

    /** divPhases: the phase of every queue, or nothing after more than 1000 rounds. */
    method DivPhases(order: seq<nat>, configOrder: seq<nat>) returns (r: Option<seq<nat>>)
      requires graph.Valid() && ConfigsOnQueues(graph.configs, |graph.edges|) && ListsKeys(graph.configs.Keys, configOrder)
      requires forall k :: 0 <= k < |order| ==> Configured(graph.flows, graph.configs, order[k])
      ensures r == DivPhasesResult(graph.edges, graph.flows, graph.configs, order)
    {
      var n := |graph.edges|;
      var phases := seq(n, q => 0);
      var i := 0;
      while i < n
        invariant 0 <= i <= n && |phases| == n
        invariant forall q :: 0 <= q < n ==> phases[q] == if q < i then InitialPhases(graph.edges)[q] else 0
      {
        if graph.edges[i].usedBy == [] {
          phases := phases[graph.edges[i].id := 1];
        }
        i := i + 1;
      }
      assert phases == InitialPhases(graph.edges);
      ghost var paths := FlowPaths(graph.flows, graph.configs, order);
      var phi := 1;
      var unphased := AnyUnphased(phases);
      while unphased
        invariant 1 <= phi <= 1001 && |phases| == n
        invariant unphased == !Complete(phases)
        invariant PhaseLoop(phases, graph.configs, paths, phi) == DivPhasesResult(graph.edges, graph.flows, graph.configs, order)
        decreases 1001 - phi
      {
        phases := PlayRound(phases, phi, order, configOrder);
        if phi > 1000 {
          return None;
        }
        phi := phi + 1;
        unphased := AnyUnphased(phases);
      }
      return Some(phases);
    }

    /** The loop inside prev_offset: the first slot of the flow that starts within the frame's period. */
    static method FirstInPeriod(slots: seq<ReservedSlot>, deadline: nat, period: nat) returns (r: Option<ReservedSlot>)
      ensures r == InPeriod(slots, deadline, period)
    {
      var i := 0;
      while i < |slots|
        invariant 0 <= i <= |slots|
        invariant InPeriod(slots, deadline, period) == InPeriod(slots[i..], deadline, period)
      {
        assert slots[i..][1..] == slots[i + 1..];
        if slots[i].start < deadline && slots[i].start >= deadline - period {
          return Some(slots[i]);
        }
        i := i + 1;
      }
      return None;
    }

    /** prev_offset and latest_offset of one frame. */
    static method LatestOffsetOf(ul: NetworkUtilizationList, path: seq<nat>, q: nat, flow: Flow, deadline: nat) returns (r: Option<nat>)
      requires ul.Valid() && OnQueues(path, ul.links) && q in path
      ensures r == CheckedLatest(ul.State(), path, q, flow, deadline)
    {
      var h := Position(path, q);
      var bound := Some(deadline);
      if h + 1 < |path| {
        var slot := FirstInPeriod(SlotsOfFlow(ul.reserved[path[h + 1]], flow.id), deadline, flow.period);
        if slot.Some? {
          bound := if slot.value.start >= ProcessingDelay then Some(Min(deadline, slot.value.start - ProcessingDelay)) else None;
        }
      }
      var tx := TransmissionDelay(flow.frameSize);
      if bound.None? || bound.value < PropagationDelay + tx {
        return None;
      }
      return Some(bound.value - PropagationDelay - tx);
    }

    /** The body of the frame loop: hermesPlacement at the latest offset. */
    static method PlaceFrame(ul: NetworkUtilizationList, env: Env, q: nat, c: nat, k: nat) returns (ok: bool)
      requires ul.Valid() && SizeTState(ul.State()) && q < ul.links && EnvOk(env, ul.links)
      requires Carries(env.configs, env.flows, ul.links, q, c) && k < env.hc / env.flows[env.configs[c].flow].period
      modifies ul
      ensures ul.Valid() && Outcome(ok, ul.State()) == FrameStep(old(ul.State()), env, q, c, k)
    {
      var config := env.configs[c];
      var flow := env.flows[config.flow];
      FrameDeadlineFits(flow.period, k, env.hc);
      var latest := LatestOffsetOf(ul, config.path, q, flow, flow.period * (k + 1));
      if latest.None? {
        return false;
      }
      if LatestCandidate(ul.free[q], latest.value, TransmissionDelay(flow.frameSize)).None? {
        return false;
      }
      ok := HermesPlacement(ul, config, flow, q, latest.value);
    }

    /** Every frame of configuration c in the hyper-cycle, on queue q. */
    static method ScheduleFrames(ul: NetworkUtilizationList, env: Env, q: nat, i: nat) returns (ok: bool)
      requires ul.Valid() && SizeTState(ul.State()) && q < ul.links && EnvOk(env, ul.links) && i < |env.used[q]|
      modifies ul
      ensures ul.Valid() && Outcome(ok, ul.State()) == FramesFrom(old(ul.State()), env, q, env.used[q][i], 0)
    {
      var c := env.used[q][i];
      assert Carries(env.configs, env.flows, ul.links, q, c);
      var count := env.hc / env.flows[env.configs[c].flow].period;
      var k := 0;
      ok := true;
      while k < count
        invariant 0 <= k <= count && ok
        invariant ul.Valid() && SizeTState(ul.State())
        invariant FramesFrom(ul.State(), env, q, c, k) == FramesFrom(old(ul.State()), env, q, c, 0)
      {
        ok := PlaceFrame(ul, env, q, c, k);
        if !ok {
          return;
        }
        k := k + 1;
      }
    }

    /** The configurations using queue q, largest frame utilization first. */
    static method ScheduleConfigs(ul: NetworkUtilizationList, env: Env, q: nat) returns (ok: bool)
      requires ul.Valid() && SizeTState(ul.State()) && q < ul.links && EnvOk(env, ul.links)
      modifies ul
      ensures ul.Valid() && Outcome(ok, ul.State()) == ConfigsFrom(old(ul.State()), env, q, 0)
    {
      var i := 0;
      ok := true;
      while i < |env.used[q]|
        invariant 0 <= i <= |env.used[q]| && ok
        invariant ul.Valid() && SizeTState(ul.State())
        invariant ConfigsFrom(ul.State(), env, q, i) == ConfigsFrom(old(ul.State()), env, q, 0)
      {
        ConfigsStep(ul.State(), env, q, i);
        ok := ScheduleFrames(ul, env, q, i);
        if !ok {
          return;
        }
        i := i + 1;
      }
    }

    /** The queues of one phase, in the phase map's order. */
    static method ScheduleLinks(ul: NetworkUtilizationList, env: Env, phase: nat) returns (ok: bool)
      requires ul.Valid() && SizeTState(ul.State()) && EnvOk(env, ul.links)
      modifies ul
      ensures ul.Valid() && Outcome(ok, ul.State()) == LinksFrom(old(ul.State()), env, phase, 0)
    {
      var i := 0;
      ok := true;
      while i < |env.links|
        invariant 0 <= i <= |env.links| && ok
        invariant ul.Valid() && SizeTState(ul.State())
        invariant LinksFrom(ul.State(), env, phase, i) == LinksFrom(old(ul.State()), env, phase, 0)
      {
        if env.phases[env.links[i]] == phase {
          ok := ScheduleConfigs(ul, env, env.links[i]);
          if !ok {
            return;
          }
        }
        i := i + 1;
      }
    }

    /** The phase loop of schedule: phases 1 .. maxPhi, stopping at the first frame that cannot be placed. */
    static method SchedulePhases(ul: NetworkUtilizationList, env: Env, maxPhi: nat) returns (ok: bool)
      requires ul.Valid() && SizeTState(ul.State()) && EnvOk(env, ul.links)
      modifies ul
      ensures ul.Valid() && Outcome(ok, ul.State()) == PhasesFrom(old(ul.State()), env, 1, maxPhi)
    {
      var phase := 1;
      ok := true;
      while phase <= maxPhi
        invariant 1 <= phase <= maxPhi + 1 && ok
        invariant ul.Valid() && SizeTState(ul.State())
        invariant PhasesFrom(ul.State(), env, phase, maxPhi) == PhasesFrom(old(ul.State()), env, 1, maxPhi)
      {
        ok := ScheduleLinks(ul, env, phase);
        if !ok {
          return;
        }
        phase := phase + 1;
      }
    }

    /** schedule: phases 1 to the largest, on the hyper-cycle of the graph's flows. */
    method Schedule(ul: NetworkUtilizationList, phases: seq<nat>, order: seq<nat>, configOrder: seq<nat>, links: seq<nat>, used: seq<seq<nat>>)
      returns (ok: bool)
      requires Inputs(graph, order, configOrder, links, used) && |phases| == |graph.edges| > 0
      requires ul.Valid() && ul.links == |graph.edges| && SizeTState(ul.State())
      modifies ul
      ensures ul.Valid()
      ensures Outcome(ok, ul.State()) == PhasesFrom(old(ul.State()), HermesEnv(graph, order, phases, links, used), 1, MaxPhase(phases))
      ensures old(ul.Consistent()) && LargeFrames(HermesEnv(graph, order, phases, links, used)) && ul.hyperCycle <= SizeMax ==> ul.Consistent()
    {
      ConsistentIsTiled(ul);
      var env := Env(graph.configs, graph.flows, HyperCycle(PeriodsOf(graph.flows, order)), phases, links, used);
      ghost var st0 := ul.State();
      ok := SchedulePhases(ul, env, MaxPhase(phases));
      if ul.hyperCycle <= SizeMax && LargeFrames(env) && TiledState(st0, ul.hyperCycle) {
        PhasesFromTiles(st0, env, 1, MaxPhase(phases), ul.hyperCycle);
      }
      ConsistentIsTiled(ul);
    }

    /** The closing loop of schedule: every configuration with its flow. */
    method CollectPairs(configOrder: seq<nat>) returns (r: seq<(nat, nat)>)
      requires forall k :: 0 <= k < |configOrder| ==> configOrder[k] in graph.configs
      ensures r == AllPairs(graph.configs, configOrder)
    {
      r := [];
      var i := 0;
      while i < |configOrder|
        invariant 0 <= i <= |configOrder|
        invariant r == AllPairs(graph.configs, configOrder[..i])
      {
        assert configOrder[..i + 1][..i] == configOrder[..i];
        r := r + [(graph.configs[configOrder[i]].flow, configOrder[i])];
        i := i + 1;
      }
      assert configOrder[..i] == configOrder;
    }

    /**
     * solve: the phases, then the schedule; an empty solution when either fails.  The frame
     * utilization that orders each used_by list is taken as the order `used`.
     */
    method Solve(ul: NetworkUtilizationList, order: seq<nat>, configOrder: seq<nat>, links: seq<nat>, used: seq<seq<nat>>)
      returns (r: seq<(nat, nat)>)
      requires graph.Valid() && Inputs(graph, order, configOrder, links, used) && |graph.edges| > 0
      requires ul.Valid() && ul.links == |graph.edges| && SizeTState(ul.State())
      modifies ul
      ensures ul.Valid()
      ensures var ph := DivPhasesResult(graph.edges, graph.flows, graph.configs, order);
              ph.None? ==> r == [] && ul.State() == old(ul.State())
      ensures var ph := DivPhasesResult(graph.edges, graph.flows, graph.configs, order);
              ph.Some? ==>
                DivPhasesSized(graph.edges, graph.flows, graph.configs, order)
                && var o := PhasesFrom(old(ul.State()), HermesEnv(graph, order, ph.value, links, used), 1, MaxPhase(ph.value));
                   ul.State() == o.state && r == if o.ok then AllPairs(graph.configs, configOrder) else []
      ensures old(ul.Consistent()) && LargeFrames(HermesEnv(graph, order, [], links, used)) && ul.hyperCycle <= SizeMax ==> ul.Consistent()
    {
      var phases := DivPhases(order, configOrder);
      DivPhasesAssignsAll(graph.edges, graph.flows, graph.configs, order);
      if phases.None? {
        return [];
      }
      var ok := Schedule(ul, phases.value, order, configOrder, links, used);
      if !ok {
        return [];
      }
      r := CollectPairs(configOrder);
    }
  }
}
