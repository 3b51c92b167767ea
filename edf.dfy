/**
 * The EarliestDeadlineFirst scheduler of src/solver/scheduler/EarliestDeadlineFirst.cpp.
 *
 * simulateEdfPlacement plays the hyper-cycle through: every egress port has an inbox of frames
 * and one entry (port, time) in a priority queue.  The port with the earliest time (lowest id
 * on a tie) is served next: an empty inbox looks again one tick later (until the hyper-cycle
 * ends), a frame that has arrived is sent (the arrived frame with the earliest deadline, then
 * the shortest period, then the lowest configuration id), and when none has arrived yet the
 * port waits one tick.  A frame that cannot make its deadline fails the whole simulation with
 * its flow.  solve runs the simulation on the active flows plus a prefiltered part of the
 * required flows, and then adds the rest one at a time, keeping each that still simulates.
 */
module Edf {
  import opened Optional
  import opened Slots
  import opened UtilizationList
  import opened UtilFunctions
  import opened Graph
  import FirstFit
  import Placement

  /** One inbox entry: configuration id, arrival time, frame size, period and deadline. */
  datatype Frame = Frame(config: nat, time: nat, size: nat, period: nat, deadline: nat)

  /**
   * The simulation state: the inbox of every port, and the time at which each port is in the
   * priority queue (None once the port has left it).  The queue never holds a port twice, so
   * one optional time per port is the whole queue.
   */
  datatype Sim = Sim(inbox: seq<seq<Frame>>, ready: seq<Option<nat>>)

  /** One reserveSlot call of the simulation. */
  datatype Reservation = Reservation(req: Request, flow: nat, config: nat)

  /** What one round of the loop does: the queue ran empty, a deadline was missed, or the state moved on. */
  datatype Event = Finished | Failed(flow: nat) | Moved(sim: Sim, res: Option<Reservation>)

  // ---------------------------------------------------------------------------
  // The priority queue: (port, time) pairs, earliest time first, lower port id on a tie

  /** The top of the queue among ports 0 .. k-1. */
  function Earliest(ready: seq<Option<nat>>, k: nat): Option<(nat, nat)>
    requires k <= |ready|
  {
    if k == 0 then None
    else
      var rest := Earliest(ready, k - 1);
      match ready[k - 1]
      case None => rest
      case Some(t) => if rest.None? || t < rest.value.1 then Some((k - 1, t)) else rest
  }

  /** The top is a queued port, no queued port has an earlier time, and a tie goes to the lower id. */
  lemma {:induction false} EarliestIsTop(ready: seq<Option<nat>>, k: nat)
    requires k <= |ready|
    ensures Earliest(ready, k).None? <==> forall p :: 0 <= p < k ==> ready[p].None?
    ensures Earliest(ready, k).Some? ==>
              var (q, t) := Earliest(ready, k).value;
              q < k && ready[q] == Some(t) &&
              forall p :: 0 <= p < k && ready[p].Some? ==> t < ready[p].value || (t == ready[p].value && q <= p)
  {
    if k > 0 {
      EarliestIsTop(ready, k - 1);
    }
  }

  // ---------------------------------------------------------------------------
  // Choosing the frame: std::reduce over the inbox

  /** The arrived frames first, by (deadline, period, configuration id); otherwise the earlier arrival. */
  predicate KeyLe(a: Frame, b: Frame) {
    a.deadline < b.deadline
    || (a.deadline == b.deadline && (a.period < b.period || (a.period == b.period && a.config <= b.config)))
  }

  /** a goes before (or ties with) b at time t. */
  predicate Ranks(a: Frame, b: Frame, t: nat) {
    if a.time <= t then b.time <= t ==> KeyLe(a, b)
    else b.time > t && a.time <= b.time
  }

  /** The reduction lambda. */
  function Prefer(l: Frame, r: Frame, t: nat): (w: Frame)
    ensures w == l || w == r
    ensures Ranks(w, l, t) && Ranks(w, r, t)
  {
    if l.time <= t && r.time <= t then
      if l.deadline != r.deadline then (if l.deadline < r.deadline then l else r)
      else if l.period != r.period then (if l.period < r.period then l else r)
      else if l.config < r.config then l else r
    else if l.time < r.time then l else r
  }

  /**
   * std::reduce over the inbox, taken as a left fold. The standard leaves the grouping open;
   * ReduceBest holds for whatever frame wins, so only the choice among frames that tie on
   * every key could differ under another grouping.
   */
  function Reduce(acc: Frame, box: seq<Frame>, t: nat): Frame
    decreases |box|
  {
    if box == [] then acc else Reduce(Prefer(acc, box[0], t), box[1..], t)
  }

  lemma {:induction false} ReduceBest(acc: Frame, box: seq<Frame>, t: nat)
    ensures Reduce(acc, box, t) == acc || Reduce(acc, box, t) in box
    ensures Ranks(Reduce(acc, box, t), acc, t)
    ensures forall f :: f in box ==> Ranks(Reduce(acc, box, t), f, t)
    decreases |box|
  {
    if box != [] {
      var acc' := Prefer(acc, box[0], t);
      ReduceBest(acc', box[1..], t);
      assert forall f :: f in box ==> f == box[0] || f in box[1..];
    }
  }

  /** The frame the port picks: the reduction from the sentinel (0, 10 hc, 5000, 10 hc, 10 hc). */
  function Choose(box: seq<Frame>, t: nat, hc: nat): Frame {
    Reduce(Frame(0, hc * 10, 5000, hc * 10, hc * 10), box, t)
  }

  /** Every frame of the inbox is due within the hyper-cycle. */
  predicate Due(box: seq<Frame>, hc: nat) {
    forall f :: f in box ==> f.time < f.deadline <= hc
  }

  /**
   * The sentinel never wins: the choice is a frame of the inbox that goes before every other
   * frame of it (an arrived one whenever some frame has arrived).
   */
  lemma ChooseIsEdf(box: seq<Frame>, t: nat, hc: nat)
    requires box != [] && Due(box, hc)
    ensures Choose(box, t, hc) in box
    ensures forall f :: f in box ==> Ranks(Choose(box, t, hc), f, t)
  {
    var init := Frame(0, hc * 10, 5000, hc * 10, hc * 10);
    ReduceBest(init, box, t);
    assert Ranks(Choose(box, t, hc), box[0], t);
  }

  // ---------------------------------------------------------------------------
  // Inboxes and the invariant of the simulation

  /** std::erase_if: drop every entry of the same configuration and arrival time. */
  function Erase(box: seq<Frame>, config: nat, time: nat): (r: seq<Frame>)
    ensures forall f :: f in r <==> f in box && !(f.config == config && f.time == time)
  {
    if box == [] then []
    else
      var rest := Erase(box[1..], config, time);
      if box[0].config == config && box[0].time == time then rest else [box[0]] + rest
  }

  predicate PathOk(path: seq<nat>, n: nat) {
    |path| > 0 && forall k :: 0 <= k < |path| ==> path[k] < n
  }

  /** A frame waiting at port q: its configuration exists, q is on its path, and its deadline is still ahead. */
  predicate FrameOk(configs: map<nat, Configuration>, n: nat, hc: nat, q: nat, f: Frame) {
    f.config in configs && PathOk(configs[f.config].path, n) && q in configs[f.config].path
    && f.time < f.deadline <= hc
  }

  predicate BoxesOk(configs: map<nat, Configuration>, n: nat, hc: nat, inbox: seq<seq<Frame>>) {
    forall q, f :: 0 <= q < |inbox| && f in inbox[q] ==> FrameOk(configs, n, hc, q, f)
  }

  predicate Inv(configs: map<nat, Configuration>, n: nat, hc: nat, s: Sim) {
    |s.inbox| == n && |s.ready| == n && BoxesOk(configs, n, hc, s.inbox)
  }

  // ---------------------------------------------------------------------------
  // One round of the loop

  /** Sending frame f from port q at time t: fail on a missed deadline, else reserve and forward. */
  function Send(configs: map<nat, Configuration>, n: nat, hc: nat, s: Sim, q: nat, t: nat, f: Frame): Event
    requires Inv(configs, n, hc, s) && q < n && f in s.inbox[q]
  {
    var box := Erase(s.inbox[q], f.config, f.time);
    var c := configs[f.config];
    var h := Position(c.path, q);
    var tx := TransmissionDelay(f.size);
    var res := Reservation(Request(q, t, t + tx, f.time), c.flow, c.id);
    if h + 1 < |c.path| then
      var atNext := t + tx + PropagationDelay + ProcessingDelay;
      if atNext >= f.deadline then Failed(c.flow)
      else
        var inbox := s.inbox[q := box];
        var next := c.path[h + 1];
        Moved(Sim(inbox[next := inbox[next] + [Frame(f.config, atNext, f.size, f.period, f.deadline)]], s.ready[q := Some(t + tx)]), Some(res))
    else if t + tx + PropagationDelay > f.deadline then Failed(c.flow)
    else Moved(Sim(s.inbox[q := box], s.ready[q := Some(t + tx)]), Some(res))
  }

  /** One pop of the priority queue and what follows it. */
  function StepSim(configs: map<nat, Configuration>, n: nat, hc: nat, s: Sim): Event
    requires Inv(configs, n, hc, s)
  {
    match Earliest(s.ready, n)
    case None => Finished
    case Some((q, t)) =>
      EarliestIsTop(s.ready, n);
      if s.inbox[q] == [] then
        Moved(Sim(s.inbox, s.ready[q := if t < hc then Some(t + 1) else None]), None)
      else
        var f := Choose(s.inbox[q], t, hc);
        ChooseIsEdf(s.inbox[q], t, hc);
        if f.time <= t then Send(configs, n, hc, s, q, t, f)
        else Moved(Sim(s.inbox, s.ready[q := Some(t + 1)]), None)
  }

  /** A frame forwarded after a send is still on its path and still ahead of its deadline. */
  lemma ForwardOk(configs: map<nat, Configuration>, n: nat, hc: nat, q: nat, f: Frame, atNext: nat)
    requires FrameOk(configs, n, hc, q, f) && atNext < f.deadline
    requires Position(configs[f.config].path, q) + 1 < |configs[f.config].path|
    ensures FrameOk(configs, n, hc, configs[f.config].path[Position(configs[f.config].path, q) + 1],
                    Frame(f.config, atNext, f.size, f.period, f.deadline))
  {
  }

  /** Every round keeps the invariant, and every reservation is for a port of the network, at or after arrival. */
  lemma StepKeeps(configs: map<nat, Configuration>, n: nat, hc: nat, s: Sim)
    requires Inv(configs, n, hc, s)
    ensures StepSim(configs, n, hc, s).Moved? ==>
              var e := StepSim(configs, n, hc, s);
              Inv(configs, n, hc, e.sim)
              && (e.res.Some? ==> e.res.value.req.queue < n && e.res.value.req.arrival <= e.res.value.req.start)
  {
    EarliestIsTop(s.ready, n);
    var e := StepSim(configs, n, hc, s);
    if e.Moved? {
      var (q, t) := Earliest(s.ready, n).value;
      if s.inbox[q] != [] {
        var f := Choose(s.inbox[q], t, hc);
        ChooseIsEdf(s.inbox[q], t, hc);
        if f.time <= t {
          var box := Erase(s.inbox[q], f.config, f.time);
          var inbox := s.inbox[q := box];
          assert BoxesOk(configs, n, hc, inbox);
          var c := configs[f.config];
          var h := Position(c.path, q);
          if h + 1 < |c.path| {
            var tx := TransmissionDelay(f.size);
            ForwardOk(configs, n, hc, q, f, t + tx + PropagationDelay + ProcessingDelay);
          }
        }
      }
    }
  }

  // ---------------------------------------------------------------------------
  // Termination: the frames' slack before the hyper-cycle ends, then the ports' remaining ticks

  function FrameWeight(f: Frame, hc: nat): nat {
    if f.time < hc then hc - f.time else 0
  }

  function BoxWeight(box: seq<Frame>, hc: nat): nat {
    if box == [] then 0 else FrameWeight(box[0], hc) + BoxWeight(box[1..], hc)
  }

  function InboxWeight(inbox: seq<seq<Frame>>, hc: nat): nat {
    if inbox == [] then 0 else BoxWeight(inbox[0], hc) + InboxWeight(inbox[1..], hc)
  }

  function PortWeight(r: Option<nat>, hc: nat): nat {
    match r
    case None => 0
    case Some(t) => if t < hc then hc + 1 - t else 1
  }

  function ReadyWeight(ready: seq<Option<nat>>, hc: nat): nat {
    if ready == [] then 0 else PortWeight(ready[0], hc) + ReadyWeight(ready[1..], hc)
  }

  lemma {:induction false} InboxWeightUpdate(inbox: seq<seq<Frame>>, q: nat, b: seq<Frame>, hc: nat)
    requires q < |inbox|
    ensures InboxWeight(inbox[q := b], hc) + BoxWeight(inbox[q], hc) == InboxWeight(inbox, hc) + BoxWeight(b, hc)
  {
    if q == 0 {
      assert inbox[q := b][1..] == inbox[1..];
    } else {
      assert inbox[q := b][1..] == inbox[1..][q - 1 := b];
      InboxWeightUpdate(inbox[1..], q - 1, b, hc);
    }
  }

  lemma {:induction false} ReadyWeightUpdate(ready: seq<Option<nat>>, q: nat, r: Option<nat>, hc: nat)
    requires q < |ready|
    ensures ReadyWeight(ready[q := r], hc) + PortWeight(ready[q], hc) == ReadyWeight(ready, hc) + PortWeight(r, hc)
  {
    if q == 0 {
      assert ready[q := r][1..] == ready[1..];
    } else {
      assert ready[q := r][1..] == ready[1..][q - 1 := r];
      ReadyWeightUpdate(ready[1..], q - 1, r, hc);
    }
  }

  lemma {:induction false} BoxWeightAppend(box: seq<Frame>, f: Frame, hc: nat)
    ensures BoxWeight(box + [f], hc) == BoxWeight(box, hc) + FrameWeight(f, hc)
  {
    if box != [] {
      assert (box + [f])[1..] == box[1..] + [f];
      BoxWeightAppend(box[1..], f, hc);
    }
  }

  /** Erasing never adds weight, and erasing a frame of the inbox removes at least its own. */
  lemma {:induction false} EraseWeight(box: seq<Frame>, f: Frame, hc: nat)
    ensures BoxWeight(Erase(box, f.config, f.time), hc) <= BoxWeight(box, hc)
    ensures f in box ==> BoxWeight(Erase(box, f.config, f.time), hc) + FrameWeight(f, hc) <= BoxWeight(box, hc)
  {
    if box != [] {
      EraseWeight(box[1..], f, hc);
      if box[0] != f && f in box {
        assert f in box[1..];
      }
    }
  }

  /** The measure of Run: the inbox weight never grows, and when it stays, the ports' weight drops. */
  predicate Below(s': Sim, s: Sim, hc: nat) {
    InboxWeight(s'.inbox, hc) < InboxWeight(s.inbox, hc)
    || (InboxWeight(s'.inbox, hc) == InboxWeight(s.inbox, hc) && ReadyWeight(s'.ready, hc) < ReadyWeight(s.ready, hc))
  }

  lemma SendDecreases(configs: map<nat, Configuration>, n: nat, hc: nat, s: Sim, q: nat, t: nat, f: Frame)
    requires Inv(configs, n, hc, s) && q < n && f in s.inbox[q] && f.time <= t
    ensures Send(configs, n, hc, s, q, t, f).Moved? ==> Below(Send(configs, n, hc, s, q, t, f).sim, s, hc)
  {
    var e := Send(configs, n, hc, s, q, t, f);
    if e.Moved? {
      var box := Erase(s.inbox[q], f.config, f.time);
      EraseWeight(s.inbox[q], f, hc);
      InboxWeightUpdate(s.inbox, q, box, hc);
      var inbox := s.inbox[q := box];
      var c := configs[f.config];
      var h := Position(c.path, q);
      if h + 1 < |c.path| {
        var tx := TransmissionDelay(f.size);
        var g := Frame(f.config, t + tx + PropagationDelay + ProcessingDelay, f.size, f.period, f.deadline);
        var next := c.path[h + 1];
        BoxWeightAppend(inbox[next], g, hc);
        InboxWeightUpdate(inbox, next, inbox[next] + [g], hc);
      }
    }
  }

  lemma StepDecreases(configs: map<nat, Configuration>, n: nat, hc: nat, s: Sim)
    requires Inv(configs, n, hc, s)
    ensures StepSim(configs, n, hc, s).Moved? ==> Below(StepSim(configs, n, hc, s).sim, s, hc)
  {
    EarliestIsTop(s.ready, n);
    var e := StepSim(configs, n, hc, s);
    if e.Moved? {
      var (q, t) := Earliest(s.ready, n).value;
      if s.inbox[q] == [] {
        ReadyWeightUpdate(s.ready, q, if t < hc then Some(t + 1) else None, hc);
      } else {
        var f := Choose(s.inbox[q], t, hc);
        ChooseIsEdf(s.inbox[q], t, hc);
        if f.time <= t {
          SendDecreases(configs, n, hc, s, q, t, f);
        } else {
          ReadyWeightUpdate(s.ready, q, Some(t + 1), hc);
        }
      }
    }
  }

  // ---------------------------------------------------------------------------
  // The whole simulation

  /** The loop to its end: the flow whose deadline was missed (if any) and the reservations made before. */
  function Run(configs: map<nat, Configuration>, n: nat, hc: nat, s: Sim): (r: (Option<nat>, seq<Reservation>))
    requires Inv(configs, n, hc, s)
    ensures forall k :: 0 <= k < |r.1| ==> r.1[k].req.queue < n && r.1[k].req.arrival <= r.1[k].req.start
    decreases InboxWeight(s.inbox, hc), ReadyWeight(s.ready, hc)
  {
    var e := StepSim(configs, n, hc, s);
    StepKeeps(configs, n, hc, s);
    StepDecreases(configs, n, hc, s);
    match e
    case Finished => (None, [])
    case Failed(flow) => (Some(flow), [])
    case Moved(s', res) =>
      var rest := Run(configs, n, hc, s');
      (rest.0, (if res.Some? then [res.value] else []) + rest.1)
  }

  /** With every inbox empty the ports tick through to the end of the hyper-cycle and nothing fails. */
  lemma {:induction false} IdleRunSucceeds(configs: map<nat, Configuration>, n: nat, hc: nat, s: Sim)
    requires Inv(configs, n, hc, s) && forall q :: 0 <= q < n ==> s.inbox[q] == []
    ensures Run(configs, n, hc, s) == (None, [])
    decreases InboxWeight(s.inbox, hc), ReadyWeight(s.ready, hc)
  {
    var e := StepSim(configs, n, hc, s);
    StepKeeps(configs, n, hc, s);
    StepDecreases(configs, n, hc, s);
    EarliestIsTop(s.ready, n);
    assert !e.Failed?;
    if e.Moved? {
      assert e.sim.inbox == s.inbox && e.res == None;
      IdleRunSucceeds(configs, n, hc, e.sim);
      var rest := Run(configs, n, hc, e.sim);
      var none: seq<Reservation> := [];
      assert Run(configs, n, hc, s) == (rest.0, none + rest.1);
      assert none + rest.1 == [];
    }
  }

  // ---------------------------------------------------------------------------
  // What a run without a failed flow means

  /** Every port still in the queue has reached the end of the hyper-cycle. */
  predicate Late(hc: nat, s: Sim) {
    forall p :: 0 <= p < |s.ready| && s.ready[p].Some? ==> s.ready[p].value >= hc
  }

  /**
   * A port has left the queue only with an empty inbox, and only once every port still queued
   * has reached the end of the hyper-cycle (the queue pops the least time first).
   */
  predicate Gone(hc: nat, s: Sim) {
    forall q :: 0 <= q < |s.ready| && q < |s.inbox| && s.ready[q].None? ==> s.inbox[q] == [] && Late(hc, s)
  }

  /**
   * Every round keeps Gone: a frame forwarded to a port that has left the queue would arrive
   * after the hyper-cycle, past its deadline, and fails the run instead.
   */
  lemma StepGone(configs: map<nat, Configuration>, n: nat, hc: nat, s: Sim)
    requires Inv(configs, n, hc, s) && Gone(hc, s)
    ensures StepSim(configs, n, hc, s).Moved? ==> Gone(hc, StepSim(configs, n, hc, s).sim)
  {
    EarliestIsTop(s.ready, n);
    var e := StepSim(configs, n, hc, s);
    if e.Moved? {
      var (q, t) := Earliest(s.ready, n).value;
      if s.inbox[q] != [] {
        var f := Choose(s.inbox[q], t, hc);
        ChooseIsEdf(s.inbox[q], t, hc);
        if f.time <= t {
          var c := configs[f.config];
          var h := Position(c.path, q);
          if h + 1 < |c.path| {
            assert s.ready[c.path[h + 1]].Some?;
          }
        }
      }
    }
  }

  /** The state the loop stops in: the queue empty, or the round that missed a deadline. */
  function Final(configs: map<nat, Configuration>, n: nat, hc: nat, s: Sim): (s': Sim)
    requires Inv(configs, n, hc, s)
    ensures Inv(configs, n, hc, s')
    decreases InboxWeight(s.inbox, hc), ReadyWeight(s.ready, hc)
  {
    var e := StepSim(configs, n, hc, s);
    StepKeeps(configs, n, hc, s);
    StepDecreases(configs, n, hc, s);
    if e.Moved? then Final(configs, n, hc, e.sim) else s
  }

  /** A run without a failed flow ends with every port out of the queue and every inbox empty: every frame was sent. */
  lemma {:induction false} SuccessEmpties(configs: map<nat, Configuration>, n: nat, hc: nat, s: Sim)
    requires Inv(configs, n, hc, s) && Gone(hc, s)
    ensures Run(configs, n, hc, s).0 == None ==>
              forall q :: 0 <= q < n ==> Final(configs, n, hc, s).inbox[q] == [] && Final(configs, n, hc, s).ready[q].None?
    decreases InboxWeight(s.inbox, hc), ReadyWeight(s.ready, hc)
  {
    var e := StepSim(configs, n, hc, s);
    RunUnfolds(configs, n, hc, s);
    EarliestIsTop(s.ready, n);
    if e.Moved? {
      StepGone(configs, n, hc, s);
      SuccessEmpties(configs, n, hc, e.sim);
    }
  }

  /**
   * The deadline test a send of frame f from port q passed: the reservation is on q for f's
   * arrival, and the frame reaches the next hop before its deadline or, from its last hop, is
   * delivered by it.
   */
  predicate OnTime(configs: map<nat, Configuration>, q: nat, f: Frame, r: Reservation)
    requires f.config in configs && q in configs[f.config].path
  {
    var path := configs[f.config].path;
    r.req.queue == q && r.req.arrival == f.time && f.time <= r.req.start
    && r.flow == configs[f.config].flow && r.config == configs[f.config].id
    && if Position(path, q) + 1 < |path| then r.req.next + PropagationDelay + ProcessingDelay < f.deadline
       else r.req.next + PropagationDelay <= f.deadline
  }

  /**
   * A frame leaves an inbox only by a send from that port that passed the deadline test: the
   * round's reservation is for a frame of the same configuration and arrival (erase_if drops
   * them all) and is on time for it.
   */
  lemma LeavesOnTime(configs: map<nat, Configuration>, n: nat, hc: nat, s: Sim, q: nat, f: Frame)
    requires Inv(configs, n, hc, s) && q < n && f in s.inbox[q]
    ensures var e := StepSim(configs, n, hc, s);
            e.Moved? && q < |e.sim.inbox| && f !in e.sim.inbox[q] ==>
              e.res.Some? && exists g :: g in s.inbox[q] && g.config == f.config && g.time == f.time && OnTime(configs, q, g, e.res.value)
  {
    EarliestIsTop(s.ready, n);
    StepKeeps(configs, n, hc, s);
    var e := StepSim(configs, n, hc, s);
    if e.Moved? && f !in e.sim.inbox[q] {
      var (p, t) := Earliest(s.ready, n).value;
      assert s.inbox[p] != [];
      var g := Choose(s.inbox[p], t, hc);
      ChooseIsEdf(s.inbox[p], t, hc);
      assert g.time <= t;
      var box := Erase(s.inbox[p], g.config, g.time);
      var c := configs[g.config];
      var h := Position(c.path, p);
      assert p == q;
      assert f !in box;
      assert OnTime(configs, q, g, e.res.value);
    }
  }

  // ---------------------------------------------------------------------------
  // Seeding the inboxes: every frame of a hyper-cycle at the first port of its path

  /** The pairs to simulate: existing flows with a positive period, existing configurations with a path inside the network. */
  predicate InputOk(configs: map<nat, Configuration>, flows: map<nat, Flow>, n: nat, input: seq<(nat, nat)>) {
    forall k :: 0 <= k < |input| ==>
      input[k].0 in flows && flows[input[k].0].period > 0 && input[k].1 in configs && PathOk(configs[input[k].1].path, n)
  }

  /** Frame i is released at i * period and due at (i + 1) * period. */
  function SeedFrames(config: nat, size: nat, period: nat, count: nat): (r: seq<Frame>)
    ensures |r| == count
  {
    seq(count, i requires 0 <= i < count => Frame(config, i * period, size, period, (i + 1) * period))
  }

  function SeedInbox(configs: map<nat, Configuration>, flows: map<nat, Flow>, hc: nat, base: seq<seq<Frame>>, input: seq<(nat, nat)>): (r: seq<seq<Frame>>)
    requires InputOk(configs, flows, |base|, input)
    ensures |r| == |base|
    decreases |input|
  {
    if input == [] then base
    else
      var pre := SeedInbox(configs, flows, hc, base, input[..|input| - 1]);
      var (id, c) := input[|input| - 1];
      var q := configs[c].path[0];
      var p := flows[id].period;
      pre[q := pre[q] + SeedFrames(c, flows[id].frameSize, p, hc / p)]
  }

  lemma FrameFits(i: nat, p: nat, hc: nat)
    requires p > 0 && i < hc / p
    ensures i * p < (i + 1) * p <= hc
  {
    Placement.FramesFit(hc, p);
    Placement.MulMono(i + 1, hc / p, p);
    assert (i + 1) * p == i * p + p;
  }

  /** Every seeded frame waits at the first port of its path and is due within the hyper-cycle. */
  lemma {:induction false} SeedInboxOk(configs: map<nat, Configuration>, flows: map<nat, Flow>, hc: nat, base: seq<seq<Frame>>, input: seq<(nat, nat)>)
    requires InputOk(configs, flows, |base|, input) && BoxesOk(configs, |base|, hc, base)
    ensures BoxesOk(configs, |base|, hc, SeedInbox(configs, flows, hc, base, input))
    decreases |input|
  {
    if input != [] {
      var n := |base|;
      SeedInboxOk(configs, flows, hc, base, input[..|input| - 1]);
      var pre := SeedInbox(configs, flows, hc, base, input[..|input| - 1]);
      var (id, c) := input[|input| - 1];
      var q := configs[c].path[0];
      var p := flows[id].period;
      var frames := SeedFrames(c, flows[id].frameSize, p, hc / p);
      forall f | f in frames ensures FrameOk(configs, n, hc, q, f) {
        var i :| 0 <= i < |frames| && frames[i] == f;
        FrameFits(i, p, hc);
      }
    }
  }

  function Seeded(configs: map<nat, Configuration>, flows: map<nat, Flow>, n: nat, hc: nat, input: seq<(nat, nat)>): (s: Sim)
    requires InputOk(configs, flows, n, input)
    ensures Inv(configs, n, hc, s)
  {
    var empty: seq<seq<Frame>> := seq(n, _ => []);
    SeedInboxOk(configs, flows, hc, empty, input);
    Sim(SeedInbox(configs, flows, hc, empty, input), seq(n, _ => Some(0)))
  }

  /** simulateEdfPlacement as a value: the failed flow, if any, and the reservations made. */
  function Simulation(configs: map<nat, Configuration>, flows: map<nat, Flow>, n: nat, hc: nat, input: seq<(nat, nat)>): (r: (Option<nat>, seq<Reservation>))
    requires InputOk(configs, flows, n, input)
  {
    Run(configs, n, hc, Seeded(configs, flows, n, hc, input))
  }

  /** Nothing to send never fails. */
  lemma EmptyInputSucceeds(configs: map<nat, Configuration>, flows: map<nat, Flow>, n: nat, hc: nat)
    ensures Simulation(configs, flows, n, hc, []) == (None, [])
  {
    IdleRunSucceeds(configs, n, hc, Seeded(configs, flows, n, hc, []));
  }

  /**
   * simulateEdfPlacement returns nullopt only when every frame of the hyper-cycle has been sent:
   * all ports out of the queue with empty inboxes.
   */
  lemma SimulationEmpties(configs: map<nat, Configuration>, flows: map<nat, Flow>, n: nat, hc: nat, input: seq<(nat, nat)>)
    requires InputOk(configs, flows, n, input)
    ensures Simulation(configs, flows, n, hc, input).0 == None ==>
              var s := Final(configs, n, hc, Seeded(configs, flows, n, hc, input));
              forall q :: 0 <= q < n ==> s.inbox[q] == [] && s.ready[q].None?
  {
    var s := Seeded(configs, flows, n, hc, input);
    assert Gone(hc, s);
    SuccessEmpties(configs, n, hc, s);
  }

  // ---------------------------------------------------------------------------
  // The utilization list the simulation fills

  /** The list after clear: one free slot [0, hyper_cycle - 1] per link, nothing reserved. */
  function ClearedState(links: nat, hc: nat): (st: ListState)
    ensures |st.free| == links && |st.reserved| == links && |st.arrivals| == links
  {
    ListState(seq(links, _ => [FreeSlot(0, LastTickBefore(hc))]), seq(links, _ => []), seq(links, _ => []))
  }

  predicate Fit(st: ListState, rs: seq<Reservation>) {
    forall k :: 0 <= k < |rs| ==> QueuesExist(st, rs[k].req.queue)
  }

  /** The reserveSlot calls of a simulation, in order. */
  function ApplyAll(st: ListState, rs: seq<Reservation>): (r: ListState)
    requires Fit(st, rs)
    ensures |r.free| == |st.free| && |r.reserved| == |st.reserved| && |r.arrivals| == |st.arrivals|
    decreases |rs|
  {
    if rs == [] then st
    else
      var x := rs[|rs| - 1];
      ReserveState(ApplyAll(st, rs[..|rs| - 1]), x.req, x.flow, x.config)
  }

  /** The reserved slots the reservations put on queue q, in order. */
  function SlotsOn(rs: seq<Reservation>, q: nat): seq<ReservedSlot> {
    if rs == [] then []
    else
      var x := rs[|rs| - 1];
      SlotsOn(rs[..|rs| - 1], q) + (if x.req.queue == q then [ReservedSlot(x.req.start, x.req.next, x.flow, x.config)] else [])
  }

  /** The arrivals the reservations record on queue q, in order. */
  function ArrivalsOn(rs: seq<Reservation>, q: nat): seq<Arrival> {
    if rs == [] then []
    else
      var x := rs[|rs| - 1];
      ArrivalsOn(rs[..|rs| - 1], q) + (if x.req.queue == q then [Arrival(x.flow, x.req.arrival)] else [])
  }

  /** Every transmission of the simulation is on its queue's reserved list and arrival list, in the order sent. */
  lemma {:induction false} ApplyAllRecords(st: ListState, rs: seq<Reservation>, q: nat)
    requires Fit(st, rs) && QueuesExist(st, q)
    ensures ApplyAll(st, rs).reserved[q] == st.reserved[q] + SlotsOn(rs, q)
    ensures ApplyAll(st, rs).arrivals[q] == st.arrivals[q] + ArrivalsOn(rs, q)
    decreases |rs|
  {
    if rs != [] {
      var pre := rs[..|rs| - 1];
      ApplyAllRecords(st, pre, q);
      var x := rs[|rs| - 1];
      if x.req.queue == q {
        assert ApplyAll(st, rs).reserved[q] == ApplyAll(st, pre).reserved[q] + [ReservedSlot(x.req.start, x.req.next, x.flow, x.config)];
      }
    }
  }

  // ---------------------------------------------------------------------------
  // solve: the prefilter, the first simulation and the incremental additions

  /** The pairs after each addition: a pair is kept when the simulation with it still succeeds. */
  function Incremental(configs: map<nat, Configuration>, flows: map<nat, Flow>, n: nat, hc: nat,
                       input: seq<(nat, nat)>, missing: seq<(nat, nat)>): seq<(nat, nat)>
    requires InputOk(configs, flows, n, input) && InputOk(configs, flows, n, missing)
    decreases |missing|
  {
    if missing == [] then input
    else
      var next := input + [missing[0]];
      assert InputOk(configs, flows, n, missing[1..]);
      if Simulation(configs, flows, n, hc, next).0.None? then Incremental(configs, flows, n, hc, next, missing[1..])
      else Incremental(configs, flows, n, hc, input, missing[1..])
  }

  /**
   * solve's result from the admitted pairs and the missing ones: when the admitted pairs do not
   * simulate, everything is added one by one from nothing.
   */
  function Plan(configs: map<nat, Configuration>, flows: map<nat, Flow>, n: nat, hc: nat,
                input: seq<(nat, nat)>, missing: seq<(nat, nat)>): seq<(nat, nat)>
    requires InputOk(configs, flows, n, input) && InputOk(configs, flows, n, missing)
  {
    if Simulation(configs, flows, n, hc, input).0.Some? then Incremental(configs, flows, n, hc, [], input + missing)
    else Incremental(configs, flows, n, hc, input, missing)
  }

  /** The additions keep the pairs they start from, in front, and take the rest from the missing ones. */
  lemma {:induction false} IncrementalDrawsFrom(configs: map<nat, Configuration>, flows: map<nat, Flow>, n: nat, hc: nat,
                                                input: seq<(nat, nat)>, missing: seq<(nat, nat)>)
    requires InputOk(configs, flows, n, input) && InputOk(configs, flows, n, missing)
    ensures var r := Incremental(configs, flows, n, hc, input, missing);
            |input| <= |r| <= |input| + |missing|
            && (forall k :: 0 <= k < |input| ==> r[k] == input[k])
            && (forall k :: |input| <= k < |r| ==> r[k] in missing)
    decreases |missing|
  {
    if missing != [] {
      var next := input + [missing[0]];
      var rest := missing[1..];
      assert InputOk(configs, flows, n, rest);
      if Simulation(configs, flows, n, hc, next).0.None? {
        IncrementalDrawsFrom(configs, flows, n, hc, next, rest);
        assert next[|input|] in missing;
      } else {
        IncrementalDrawsFrom(configs, flows, n, hc, input, rest);
      }
      assert forall x :: x in rest ==> x in missing;
    }
  }

  /** Starting from pairs that simulate, every pair set tried and kept simulates too. */
  lemma {:induction false} IncrementalFeasible(configs: map<nat, Configuration>, flows: map<nat, Flow>, n: nat, hc: nat,
                                               input: seq<(nat, nat)>, missing: seq<(nat, nat)>)
    requires InputOk(configs, flows, n, input) && InputOk(configs, flows, n, missing)
    requires Simulation(configs, flows, n, hc, input).0 == None
    ensures InputOk(configs, flows, n, Incremental(configs, flows, n, hc, input, missing))
    ensures Simulation(configs, flows, n, hc, Incremental(configs, flows, n, hc, input, missing)).0 == None
    decreases |missing|
  {
    if missing != [] {
      var next := input + [missing[0]];
      assert InputOk(configs, flows, n, missing[1..]);
      if Simulation(configs, flows, n, hc, next).0.None? {
        IncrementalFeasible(configs, flows, n, hc, next, missing[1..]);
      } else {
        IncrementalFeasible(configs, flows, n, hc, input, missing[1..]);
      }
    }
  }

  /**
   * What solve returns always simulates without a missed deadline, and the admitted pairs stay
   * in front whenever they simulate on their own.
   */
  lemma PlanFeasible(configs: map<nat, Configuration>, flows: map<nat, Flow>, n: nat, hc: nat,
                     input: seq<(nat, nat)>, missing: seq<(nat, nat)>)
    requires InputOk(configs, flows, n, input) && InputOk(configs, flows, n, missing)
    ensures InputOk(configs, flows, n, Plan(configs, flows, n, hc, input, missing))
    ensures Simulation(configs, flows, n, hc, Plan(configs, flows, n, hc, input, missing)).0 == None
    ensures Simulation(configs, flows, n, hc, input).0 == None ==>
              |input| <= |Plan(configs, flows, n, hc, input, missing)|
              && forall k :: 0 <= k < |input| ==> Plan(configs, flows, n, hc, input, missing)[k] == input[k]
  {
    if Simulation(configs, flows, n, hc, input).0.Some? {
      EmptyInputSucceeds(configs, flows, n, hc);
      IncrementalFeasible(configs, flows, n, hc, [], input + missing);
    } else {
      IncrementalFeasible(configs, flows, n, hc, input, missing);
      IncrementalDrawsFrom(configs, flows, n, hc, input, missing);
    }
  }

  lemma InputOkAppend(configs: map<nat, Configuration>, flows: map<nat, Flow>, n: nat, a: seq<(nat, nat)>, b: seq<(nat, nat)>)
    requires InputOk(configs, flows, n, a) && InputOk(configs, flows, n, b)
    ensures InputOk(configs, flows, n, a + b)
  {
    forall k | 0 <= k < |a + b| ensures (a + b)[k] == if k < |a| then a[k] else b[k - |a|] {}
  }

  /** The pairs the incremental loop simulates last: the pairs kept so far plus the last missing pair. */
  function LastTried(configs: map<nat, Configuration>, flows: map<nat, Flow>, n: nat, hc: nat,
                     input: seq<(nat, nat)>, missing: seq<(nat, nat)>): (t: seq<(nat, nat)>)
    requires InputOk(configs, flows, n, input) && InputOk(configs, flows, n, missing) && missing != []
    ensures InputOk(configs, flows, n, t) && t != [] && t[|t| - 1] == missing[|missing| - 1]
    decreases |missing|
  {
    var next := input + [missing[0]];
    assert InputOk(configs, flows, n, next) by {
      forall k | 0 <= k < |next| ensures next[k] == if k < |input| then input[k] else missing[0] {}
    }
    if |missing| == 1 then next
    else
      assert InputOk(configs, flows, n, missing[1..]);
      var kept := if Simulation(configs, flows, n, hc, next).0.None? then next else input;
      LastTried(configs, flows, n, hc, kept, missing[1..])
  }

  /**
   * The additions end with the last simulated pairs when that simulation succeeded, and with
   * them minus the last pair when it failed.
   */
  lemma {:induction false} LastTriedAgrees(configs: map<nat, Configuration>, flows: map<nat, Flow>, n: nat, hc: nat,
                                           input: seq<(nat, nat)>, missing: seq<(nat, nat)>)
    requires InputOk(configs, flows, n, input) && InputOk(configs, flows, n, missing) && missing != []
    ensures var t := LastTried(configs, flows, n, hc, input, missing);
            Incremental(configs, flows, n, hc, input, missing)
              == if Simulation(configs, flows, n, hc, t).0.None? then t else t[..|t| - 1]
    decreases |missing|
  {
    var next := input + [missing[0]];
    assert InputOk(configs, flows, n, missing[1..]);
    assert next[..|next| - 1] == input;
    if |missing| > 1 {
      var kept := if Simulation(configs, flows, n, hc, next).0.None? then next else input;
      LastTriedAgrees(configs, flows, n, hc, kept, missing[1..]);
    }
  }

  /** One round of the additions: the first missing pair is kept exactly when it simulates. */
  lemma IncrementalStep(configs: map<nat, Configuration>, flows: map<nat, Flow>, n: nat, hc: nat,
                        input: seq<(nat, nat)>, missing: seq<(nat, nat)>)
    requires InputOk(configs, flows, n, input) && InputOk(configs, flows, n, missing) && missing != []
    ensures InputOk(configs, flows, n, [missing[0]]) && InputOk(configs, flows, n, missing[1..])
    ensures var next := input + [missing[0]];
            var kept := if Simulation(configs, flows, n, hc, next).0.None? then next else input;
            InputOk(configs, flows, n, kept)
            && Incremental(configs, flows, n, hc, input, missing) == Incremental(configs, flows, n, hc, kept, missing[1..])
            && LastTried(configs, flows, n, hc, input, missing)
               == if |missing| == 1 then next else LastTried(configs, flows, n, hc, kept, missing[1..])
  {
    assert InputOk(configs, flows, n, [missing[0]]);
    InputOkAppend(configs, flows, n, input, [missing[0]]);
    assert InputOk(configs, flows, n, missing[1..]);
  }

  /** The pairs solve simulates last: the admitted pairs alone, or the last pair the additions try. */
  function PlanTried(configs: map<nat, Configuration>, flows: map<nat, Flow>, n: nat, hc: nat,
                     input: seq<(nat, nat)>, missing: seq<(nat, nat)>): (t: seq<(nat, nat)>)
    requires InputOk(configs, flows, n, input) && InputOk(configs, flows, n, missing)
    ensures InputOk(configs, flows, n, t)
  {
    var failed := Simulation(configs, flows, n, hc, input).0.Some?;
    var rest := if failed then input + missing else missing;
    InputOkAppend(configs, flows, n, input, missing);
    if rest == [] then input else LastTried(configs, flows, n, hc, if failed then [] else input, rest)
  }

  /**
   * The utilization list solve leaves holds the reservations of its result exactly when the last
   * simulation succeeded; otherwise the result lacks the last pair simulated.
   */
  lemma PlanTriedAgrees(configs: map<nat, Configuration>, flows: map<nat, Flow>, n: nat, hc: nat,
                        input: seq<(nat, nat)>, missing: seq<(nat, nat)>)
    requires InputOk(configs, flows, n, input) && InputOk(configs, flows, n, missing)
    ensures var t := PlanTried(configs, flows, n, hc, input, missing);
            Plan(configs, flows, n, hc, input, missing) == if t == [] || Simulation(configs, flows, n, hc, t).0.None? then t else t[..|t| - 1]
  {
    var failed := Simulation(configs, flows, n, hc, input).0.Some?;
    var rest := if failed then input + missing else missing;
    InputOkAppend(configs, flows, n, input, missing);
    if rest != [] {
      LastTriedAgrees(configs, flows, n, hc, if failed then [] else input, rest);
    } else {
      EmptyInputSucceeds(configs, flows, n, hc);
    }
  }

  /** A flow solve can hand to the simulation: a positive period and a first configuration inside the network. */
  predicate Schedulable(configs: map<nat, Configuration>, flows: map<nat, Flow>, n: nat, id: nat) {
    id in flows && flows[id].period > 0 && |flows[id].configurations| > 0
    && var c := flows[id].configurations[0];
       c in configs && configs[c].id == c && PathOk(configs[c].path, n)
  }

  /** Each flow with its first configuration. */
  function FrontPairs(configs: map<nat, Configuration>, flows: map<nat, Flow>, n: nat, ids: seq<nat>): (r: seq<(nat, nat)>)
    requires forall k :: 0 <= k < |ids| ==> Schedulable(configs, flows, n, ids[k])
    ensures |r| == |ids| && InputOk(configs, flows, n, r)
  {
    if ids == [] then []
    else
      var id := ids[|ids| - 1];
      assert Schedulable(configs, flows, n, ids[|ids| - 1]);
      assert forall k :: 0 <= k < |ids| - 1 ==> ids[..|ids| - 1][k] == ids[k];
      FrontPairs(configs, flows, n, ids[..|ids| - 1]) + [(id, flows[id].configurations[0])]
  }

  /**
   * The traffic prefilter: the admitted flows join the input with their first configuration,
   * the others go to the missing list with that configuration's id.
   */
  function Split(configs: map<nat, Configuration>, flows: map<nat, Flow>, n: nat, ids: seq<nat>, admitted: set<nat>): (r: (seq<(nat, nat)>, seq<(nat, nat)>))
    requires forall k :: 0 <= k < |ids| ==> Schedulable(configs, flows, n, ids[k])
    ensures |r.0| + |r.1| == |ids| && InputOk(configs, flows, n, r.0) && InputOk(configs, flows, n, r.1)
    ensures forall k :: 0 <= k < |r.0| ==> r.0[k].0 in admitted
    ensures forall k :: 0 <= k < |r.1| ==> r.1[k].0 !in admitted
  {
    if ids == [] then ([], [])
    else
      var id := ids[|ids| - 1];
      assert Schedulable(configs, flows, n, ids[|ids| - 1]);
      assert forall k :: 0 <= k < |ids| - 1 ==> ids[..|ids| - 1][k] == ids[k];
      var pre := Split(configs, flows, n, ids[..|ids| - 1], admitted);
      var c := flows[id].configurations[0];
      if id in admitted then (pre.0 + [(id, c)], pre.1) else (pre.0, pre.1 + [(id, configs[c].id)])
  }

  /** The position of the port on the path, found by walking the path from its front. */
  method FindHop(path: seq<nat>, q: nat) returns (h: nat)
    requires q in path
    ensures h == Position(path, q)
  {
    h := 0;
    while path[h] != q
      invariant h <= Position(path, q)
      decreases Position(path, q) - h
    {
      h := h + 1;
    }
  }

  /** The frames of one flow, appended to the inbox of the first port of its path. */
  method AddSeeds(inbox: seq<seq<Frame>>, q: nat, config: nat, size: nat, period: nat, hc: nat) returns (r: seq<seq<Frame>>)
    requires q < |inbox| && period > 0
    ensures r == inbox[q := inbox[q] + SeedFrames(config, size, period, hc / period)]
  {
    r := inbox;
    var i := 0;
    assert SeedFrames(config, size, period, 0) == [];
    assert inbox[q] + [] == inbox[q];
    while i < hc / period
      invariant i <= hc / period
      invariant r == inbox[q := inbox[q] + SeedFrames(config, size, period, i)]
    {
      var frame := Frame(config, i * period, size, period, (i + 1) * period);
      assert SeedFrames(config, size, period, i + 1) == SeedFrames(config, size, period, i) + [frame];
      assert (inbox[q] + SeedFrames(config, size, period, i)) + [frame] == inbox[q] + (SeedFrames(config, size, period, i) + [frame]);
      r := r[q := r[q] + [frame]];
      i := i + 1;
    }
  }

  /** The reservation one round made, if any. */
  function Made(e: Event): seq<Reservation>
    requires e.Moved?
  {
    if e.res.Some? then [e.res.value] else []
  }

  /** Run is one round followed by the rest of the run. */
  lemma RunUnfolds(configs: map<nat, Configuration>, n: nat, hc: nat, s: Sim)
    requires Inv(configs, n, hc, s)
    ensures var e := StepSim(configs, n, hc, s);
            (e.Finished? ==> Run(configs, n, hc, s) == (None, []))
            && (e.Failed? ==> Run(configs, n, hc, s) == (Some(e.flow), []))
            && (e.Moved? ==> Inv(configs, n, hc, e.sim) && Below(e.sim, s, hc)
                             && Run(configs, n, hc, s) == (Run(configs, n, hc, e.sim).0, Made(e) + Run(configs, n, hc, e.sim).1))
  {
    StepKeeps(configs, n, hc, s);
    StepDecreases(configs, n, hc, s);
  }

  /** One more reservation on the list is one more reserveSlot call. */
  lemma ApplyStep(st: ListState, done: seq<Reservation>, e: Event, rest: seq<Reservation>)
    requires Fit(st, done) && e.Moved? && (e.res.Some? ==> QueuesExist(st, e.res.value.req.queue))
    ensures Fit(st, done + Made(e))
    ensures ApplyAll(st, done + Made(e)) ==
              if e.res.Some? then ReserveState(ApplyAll(st, done), e.res.value.req, e.res.value.flow, e.res.value.config)
              else ApplyAll(st, done)
    ensures done + (Made(e) + rest) == (done + Made(e)) + rest
  {
    if e.res.Some? {
      var x := e.res.value;
      var all := done + [x];
      assert Made(e) == [x];
      assert all[..|all| - 1] == done && all[|all| - 1] == x;
      forall k | 0 <= k < |all| ensures QueuesExist(st, all[k].req.queue) {
        if k < |done| {
          assert all[k] == done[k];
        }
      }
    } else {
      assert Made(e) == [];
      assert done + [] == done;
    }
  }

  class EarliestDeadlineFirst {
    const graph: MultiLayeredGraph
    var hyperCycle: nat
    var skipRun: bool

    /** The hyper-cycle of the graph's flows, folded in the map's iteration order `order`; the first solve is skipped. */
    constructor (graph: MultiLayeredGraph, order: seq<nat>)
      requires ListsKeys(graph.flows.Keys, order)
      ensures this.graph == graph && skipRun
      ensures hyperCycle == HyperCycle(PeriodsOf(graph.flows, order))
    {
      this.graph := graph;
      hyperCycle := HyperCycle(PeriodsOf(graph.flows, order));
      skipRun := true;
    }

    /** One round of the event loop: the top of the queue is served and, on a send, the slot is reserved. */
    method ServePort(ul: NetworkUtilizationList, configs: map<nat, Configuration>, n: nat, hc: nat, s: Sim) returns (e: Event)
      requires Inv(configs, n, hc, s) && ul.Valid() && ul.links == n
      modifies ul
      ensures ul.Valid()
      ensures e == StepSim(configs, n, hc, s)
      ensures e.Moved? && e.res.Some? ==> e.res.value.req.queue < n
      ensures ul.State() == if e.Moved? && e.res.Some? then ReserveState(old(ul.State()), e.res.value.req, e.res.value.flow, e.res.value.config)
                            else old(ul.State())
    {
      var top := Earliest(s.ready, n);
      EarliestIsTop(s.ready, n);
      StepKeeps(configs, n, hc, s);
      if top.None? {
        return Finished;
      }
      var (q, t) := top.value;
      var box := s.inbox[q];
      if box == [] {
        return Moved(Sim(s.inbox, s.ready[q := if t < hc then Some(t + 1) else None]), None);
      }
      var f := Choose(box, t, hc);
      ChooseIsEdf(box, t, hc);
      if t < f.time {
        return Moved(Sim(s.inbox, s.ready[q := Some(t + 1)]), None);
      }
      e := SendFrame(ul, configs, n, hc, s, q, t, f);
    }

    /** The send branch: erase the frame, find the next hop, check the deadline, reserve the slot. */
    method SendFrame(ul: NetworkUtilizationList, configs: map<nat, Configuration>, n: nat, hc: nat, s: Sim, q: nat, t: nat, f: Frame)
      returns (e: Event)
      requires Inv(configs, n, hc, s) && q < n && f in s.inbox[q] && f.time <= t
      requires ul.Valid() && ul.links == n
      modifies ul
      ensures ul.Valid()
      ensures e == Send(configs, n, hc, s, q, t, f)
      ensures ul.State() == if e.Moved? then ReserveState(old(ul.State()), e.res.value.req, e.res.value.flow, e.res.value.config)
                            else old(ul.State())
    {
      var inbox := s.inbox[q := Erase(s.inbox[q], f.config, f.time)];
      var c := configs[f.config];
      var tx := TransmissionDelay(f.size);
      var h := FindHop(c.path, q);
      if h + 1 < |c.path| {
        var atNext := t + tx + PropagationDelay + ProcessingDelay;
        if atNext >= f.deadline {
          return Failed(c.flow);
        }
        var next := c.path[h + 1];
        inbox := inbox[next := inbox[next] + [Frame(f.config, atNext, f.size, f.period, f.deadline)]];
      } else if t + tx + PropagationDelay > f.deadline {
        return Failed(c.flow);
      }
      var req := Request(q, t, t + tx, f.time);
      var _ := ul.ReserveSlot(req, c.flow, c.id);
      e := Moved(Sim(inbox, s.ready[q := Some(t + tx)]), Some(Reservation(req, c.flow, c.id)));
    }

    /** The inboxes with every frame of the input at the first port of its path, and every port queued at time 0. */
    method SeedSim(input: seq<(nat, nat)>) returns (s: Sim)
      requires InputOk(graph.configs, graph.flows, graph.NumberOfEgressQueues(), input)
      ensures s == Seeded(graph.configs, graph.flows, graph.NumberOfEgressQueues(), hyperCycle, input)
    {
      var n := graph.NumberOfEgressQueues();
      var inbox: seq<seq<Frame>> := seq(n, _ => []);
      var ready: seq<Option<nat>> := [];
      var id := 0;
      while id < n
        invariant id <= n && ready == seq(id, _ => Some(0))
      {
        ready := ready + [Some(0)];
        id := id + 1;
      }
      ghost var empty := inbox;
      var k := 0;
      while k < |input|
        invariant k <= |input| && inbox == SeedInbox(graph.configs, graph.flows, hyperCycle, empty, input[..k])
      {
        var (fid, cid) := input[k];
        var flow := graph.flows[fid];
        inbox := AddSeeds(inbox, graph.configs[cid].path[0], cid, flow.frameSize, flow.period, hyperCycle);
        assert input[..k + 1][..k] == input[..k];
        k := k + 1;
      }
      assert input[..k] == input;
      s := Sim(inbox, ready);
    }

    /** The event loop: serve ports until the queue is empty or a deadline is missed, reserving every send. */
    method Play(s0: Sim, ul: NetworkUtilizationList) returns (r: Option<nat>)
      requires Inv(graph.configs, graph.NumberOfEgressQueues(), hyperCycle, s0)
      requires ul.Valid() && ul.links == graph.NumberOfEgressQueues()
      modifies ul
      ensures ul.Valid()
      ensures r == Run(graph.configs, graph.NumberOfEgressQueues(), hyperCycle, s0).0
      ensures Fit(old(ul.State()), Run(graph.configs, graph.NumberOfEgressQueues(), hyperCycle, s0).1)
      ensures ul.State() == ApplyAll(old(ul.State()), Run(graph.configs, graph.NumberOfEgressQueues(), hyperCycle, s0).1)
    {
      var n := graph.NumberOfEgressQueues();
      var configs := graph.configs;
      var hc := hyperCycle;
      ghost var st0 := ul.State();
      var s := s0;
      ghost var done: seq<Reservation> := [];
      assert done + Run(configs, n, hc, s).1 == Run(configs, n, hc, s).1;
      while true
        invariant |st0.free| == n && |st0.reserved| == n && |st0.arrivals| == n
        invariant Inv(configs, n, hc, s) && ul.Valid()
        invariant Fit(st0, done) && ul.State() == ApplyAll(st0, done)
        invariant Run(configs, n, hc, s0) == (Run(configs, n, hc, s).0, done + Run(configs, n, hc, s).1)
        decreases InboxWeight(s.inbox, hc), ReadyWeight(s.ready, hc)
      {
        var e := ServePort(ul, configs, n, hc, s);
        RunUnfolds(configs, n, hc, s);
        if e.Finished? || e.Failed? {
          assert done + [] == done;
          return if e.Failed? then Some(e.flow) else None;
        }
        ApplyStep(st0, done, e, Run(configs, n, hc, e.sim).1);
        done := done + Made(e);
        s := e.sim;
      }
    }

    /** The list holds exactly the reservations of simulating `input` from a cleared list. */
    ghost predicate Simulated(ul: NetworkUtilizationList, input: seq<(nat, nat)>)
      reads this, graph, ul
    {
      var n := graph.NumberOfEgressQueues();
      ul.links == n && InputOk(graph.configs, graph.flows, n, input)
      && Fit(ClearedState(n, ul.hyperCycle), Simulation(graph.configs, graph.flows, n, hyperCycle, input).1)
      && ul.State() == ApplyAll(ClearedState(n, ul.hyperCycle), Simulation(graph.configs, graph.flows, n, hyperCycle, input).1)
    }

    /**
     * simulateEdfPlacement: clear the list, seed the inboxes, play the event loop.  The list ends
     * up with exactly the simulation's reservations.
     */
    method Simulate(input: seq<(nat, nat)>, ul: NetworkUtilizationList) returns (r: Option<nat>)
      requires ul.Valid() && ul.links == graph.NumberOfEgressQueues()
      requires InputOk(graph.configs, graph.flows, graph.NumberOfEgressQueues(), input)
      modifies ul
      ensures ul.Valid()
      ensures r == Simulation(graph.configs, graph.flows, graph.NumberOfEgressQueues(), hyperCycle, input).0
      ensures Simulated(ul, input)
    {
      ul.Clear();
      assert ul.State() == ClearedState(ul.links, ul.hyperCycle);
      var s := SeedSim(input);
      r := Play(s, ul);
    }

    /** The active flows, in the set's iteration order, each with its first configuration. */
    method FrontOf(activeOrder: seq<nat>) returns (input: seq<(nat, nat)>)
      requires forall k :: 0 <= k < |activeOrder| ==> Schedulable(graph.configs, graph.flows, graph.NumberOfEgressQueues(), activeOrder[k])
      ensures input == FrontPairs(graph.configs, graph.flows, graph.NumberOfEgressQueues(), activeOrder)
    {
      var n := graph.NumberOfEgressQueues();
      input := [];
      var k := 0;
      while k < |activeOrder|
        invariant k <= |activeOrder| && input == FrontPairs(graph.configs, graph.flows, n, activeOrder[..k])
      {
        var id := activeOrder[k];
        input := input + [(id, graph.flows[id].configurations[0])];
        assert activeOrder[..k + 1][..k] == activeOrder[..k];
        k := k + 1;
      }
      assert activeOrder[..k] == activeOrder;
    }

    /** The required flows in ascending id order, split by the traffic prefilter. */
    method SplitRequired(ids: seq<nat>, admitted: set<nat>) returns (input: seq<(nat, nat)>, missing: seq<(nat, nat)>)
      requires forall k :: 0 <= k < |ids| ==> Schedulable(graph.configs, graph.flows, graph.NumberOfEgressQueues(), ids[k])
      ensures (input, missing) == Split(graph.configs, graph.flows, graph.NumberOfEgressQueues(), ids, admitted)
    {
      var n := graph.NumberOfEgressQueues();
      input, missing := [], [];
      var k := 0;
      while k < |ids|
        invariant k <= |ids| && (input, missing) == Split(graph.configs, graph.flows, n, ids[..k], admitted)
      {
        var id := ids[k];
        assert Schedulable(graph.configs, graph.flows, n, ids[k]);
        var c := graph.flows[id].configurations[0];
        assert ids[..k + 1][..k] == ids[..k];
        if id in admitted {
          input := input + [(id, c)];
        } else {
          missing := missing + [(id, graph.configs[c].id)];
        }
        k := k + 1;
      }
      assert ids[..k] == ids;
    }

    /**
     * The incremental loop: each missing pair is appended and popped again when the simulation
     * fails.  The list is left with the reservations of the last simulation.
     */
    method AddOneByOne(input: seq<(nat, nat)>, missing: seq<(nat, nat)>, ul: NetworkUtilizationList) returns (r: seq<(nat, nat)>)
      requires ul.Valid() && ul.links == graph.NumberOfEgressQueues()
      requires InputOk(graph.configs, graph.flows, graph.NumberOfEgressQueues(), input)
      requires InputOk(graph.configs, graph.flows, graph.NumberOfEgressQueues(), missing)
      modifies ul
      ensures ul.Valid()
      ensures r == Incremental(graph.configs, graph.flows, graph.NumberOfEgressQueues(), hyperCycle, input, missing)
      ensures missing == [] ==> ul.State() == old(ul.State())
      ensures missing != [] ==>
                Simulated(ul, LastTried(graph.configs, graph.flows, graph.NumberOfEgressQueues(), hyperCycle, input, missing))
    {
      var n := graph.NumberOfEgressQueues();
      r := input;
      var k := 0;
      ghost var tried: seq<(nat, nat)> := [];
      while k < |missing|
        invariant k <= |missing| && InputOk(graph.configs, graph.flows, n, r)
        invariant InputOk(graph.configs, graph.flows, n, missing[k..])
        invariant ul.Valid()
        invariant Incremental(graph.configs, graph.flows, n, hyperCycle, input, missing)
                  == Incremental(graph.configs, graph.flows, n, hyperCycle, r, missing[k..])
        invariant k < |missing| ==>
                    LastTried(graph.configs, graph.flows, n, hyperCycle, input, missing)
                    == LastTried(graph.configs, graph.flows, n, hyperCycle, r, missing[k..])
        invariant k == |missing| && k > 0 ==> LastTried(graph.configs, graph.flows, n, hyperCycle, input, missing) == tried
        invariant k == 0 ==> ul.State() == old(ul.State())
        invariant k > 0 ==> Simulated(ul, tried)
      {
        assert missing[k..][1..] == missing[k + 1..];
        assert missing[k..][0] == missing[k];
        IncrementalStep(graph.configs, graph.flows, n, hyperCycle, r, missing[k..]);
        tried := r + [missing[k]];
        r := TryPair(r, missing[k], ul);
        k := k + 1;
      }
    }

    /** One round of the incremental loop: append the pair, simulate, pop it again on a failure. */
    method TryPair(input: seq<(nat, nat)>, pair: (nat, nat), ul: NetworkUtilizationList) returns (r: seq<(nat, nat)>)
      requires ul.Valid() && ul.links == graph.NumberOfEgressQueues()
      requires InputOk(graph.configs, graph.flows, graph.NumberOfEgressQueues(), input)
      requires InputOk(graph.configs, graph.flows, graph.NumberOfEgressQueues(), [pair])
      modifies ul
      ensures ul.Valid() && Simulated(ul, input + [pair])
      ensures r == if Simulation(graph.configs, graph.flows, graph.NumberOfEgressQueues(), hyperCycle, input + [pair]).0.None?
                   then input + [pair] else input
    {
      InputOkAppend(graph.configs, graph.flows, graph.NumberOfEgressQueues(), input, [pair]);
      r := input + [pair];
      var temp := Simulate(r, ul);
      if temp.Some? {
        r := input;
      }
    }

    /** The body of solve after the skip toggle: prefilter, first simulation, incremental additions. */
    method Schedule(activeOrder: seq<nat>, ids: seq<nat>, admitted: set<nat>, ul: NetworkUtilizationList) returns (r: seq<(nat, nat)>)
      requires ul.Valid() && ul.links == graph.NumberOfEgressQueues()
      requires forall k :: 0 <= k < |activeOrder| ==> Schedulable(graph.configs, graph.flows, graph.NumberOfEgressQueues(), activeOrder[k])
      requires forall k :: 0 <= k < |ids| ==> Schedulable(graph.configs, graph.flows, graph.NumberOfEgressQueues(), ids[k])
      modifies ul
      ensures ul.Valid()
      ensures var split := Split(graph.configs, graph.flows, graph.NumberOfEgressQueues(), ids, admitted);
              r == Plan(graph.configs, graph.flows, graph.NumberOfEgressQueues(), hyperCycle,
                        FrontPairs(graph.configs, graph.flows, graph.NumberOfEgressQueues(), activeOrder) + split.0, split.1)
      ensures InputOk(graph.configs, graph.flows, graph.NumberOfEgressQueues(), r)
      ensures Simulation(graph.configs, graph.flows, graph.NumberOfEgressQueues(), hyperCycle, r).0 == None
      ensures var split := Split(graph.configs, graph.flows, graph.NumberOfEgressQueues(), ids, admitted);
              var tried := PlanTried(graph.configs, graph.flows, graph.NumberOfEgressQueues(), hyperCycle,
                                     FrontPairs(graph.configs, graph.flows, graph.NumberOfEgressQueues(), activeOrder) + split.0, split.1);
              Simulated(ul, tried)
    {
      var input := FrontOf(activeOrder);
      var admittedPairs, missing := SplitRequired(ids, admitted);
      input := input + admittedPairs;
      PlanFeasible(graph.configs, graph.flows, graph.NumberOfEgressQueues(), hyperCycle, input, missing);
      InputOkAppend(graph.configs, graph.flows, graph.NumberOfEgressQueues(), input, missing);
      var temp := Simulate(input, ul);
      if temp.Some? {
        missing := input + missing;
        input := [];
      }
      r := AddOneByOne(input, missing, ul);
    }

    /**
     * What solve returns when it runs: the plan for the active flows' first configurations followed
     * by the admitted required flows (ascending ids), with the other required flows added later.
     */
    ghost predicate Planned(r: seq<(nat, nat)>, activeOrder: seq<nat>, required: set<nat>, admitted: set<nat>)
      reads this, graph
    {
      var n := graph.NumberOfEgressQueues();
      var ids := FirstFit.Ascending(required);
      (forall k :: 0 <= k < |activeOrder| ==> Schedulable(graph.configs, graph.flows, n, activeOrder[k]))
      && (forall k :: 0 <= k < |ids| ==> Schedulable(graph.configs, graph.flows, n, ids[k]))
      && var split := Split(graph.configs, graph.flows, n, ids, admitted);
         var front := FrontPairs(graph.configs, graph.flows, n, activeOrder);
         InputOkAppend(graph.configs, graph.flows, n, front, split.0);
         r == Plan(graph.configs, graph.flows, n, hyperCycle, front + split.0, split.1)
    }

    /** The utilization list after solve runs: the reservations of the last simulation solve made. */
    ghost predicate Holds(ul: NetworkUtilizationList, activeOrder: seq<nat>, required: set<nat>, admitted: set<nat>)
      reads this, graph, ul
    {
      var n := graph.NumberOfEgressQueues();
      var ids := FirstFit.Ascending(required);
      (forall k :: 0 <= k < |activeOrder| ==> Schedulable(graph.configs, graph.flows, n, activeOrder[k]))
      && (forall k :: 0 <= k < |ids| ==> Schedulable(graph.configs, graph.flows, n, ids[k]))
      && var split := Split(graph.configs, graph.flows, n, ids, admitted);
         var front := FrontPairs(graph.configs, graph.flows, n, activeOrder);
         InputOkAppend(graph.configs, graph.flows, n, front, split.0);
         var tried := PlanTried(graph.configs, graph.flows, n, hyperCycle, front + split.0, split.1);
         Simulated(ul, tried)
    }

    /**
     * solve: every second call (starting with the first) returns nothing.  Otherwise the active
     * flows and the admitted required flows (ascending ids) are simulated; the rest are then added
     * one at a time and each kept only if the simulation still succeeds.
     */
    method Solve(g: MultiLayeredGraph, active: set<nat>, required: set<nat>, ul: NetworkUtilizationList,
                 order: seq<nat>, activeOrder: seq<nat>, admitted: set<nat>) returns (r: seq<(nat, nat)>)
      requires ul.Valid() && ul.links == graph.NumberOfEgressQueues()
      requires ListsKeys(g.flows.Keys, order) && ListsKeys(active, activeOrder)
      requires forall id :: id in active ==> Schedulable(graph.configs, graph.flows, graph.NumberOfEgressQueues(), id)
      requires forall id :: id in required ==> Schedulable(graph.configs, graph.flows, graph.NumberOfEgressQueues(), id)
      modifies this, ul
      ensures ul.Valid()
      ensures old(skipRun) ==> r == [] && !skipRun && hyperCycle == old(hyperCycle)
      ensures old(skipRun) ==> ul.State() == old(ul.State())
      ensures !old(skipRun) ==>
                skipRun && hyperCycle == HyperCycle(PeriodsOf(g.flows, order)) && Planned(r, activeOrder, required, admitted)
                && Holds(ul, activeOrder, required, admitted)
      ensures InputOk(graph.configs, graph.flows, graph.NumberOfEgressQueues(), r)
      ensures Simulation(graph.configs, graph.flows, graph.NumberOfEgressQueues(), hyperCycle, r).0 == None
    {
      var n := graph.NumberOfEgressQueues();
      if skipRun {
        skipRun := false;
        EmptyInputSucceeds(graph.configs, graph.flows, n, hyperCycle);
        return [];
      }
      skipRun := true;
      hyperCycle := HyperCycle(PeriodsOf(g.flows, order));
      assert forall k :: 0 <= k < |activeOrder| ==> Schedulable(graph.configs, graph.flows, n, activeOrder[k]);
      r := ScheduleRequired(activeOrder, required, admitted, ul);
    }

    /** The scheduling half of solve, with the required flows taken in ascending id order. */
    method ScheduleRequired(activeOrder: seq<nat>, required: set<nat>, admitted: set<nat>, ul: NetworkUtilizationList)
      returns (r: seq<(nat, nat)>)
      requires ul.Valid() && ul.links == graph.NumberOfEgressQueues()
      requires forall k :: 0 <= k < |activeOrder| ==> Schedulable(graph.configs, graph.flows, graph.NumberOfEgressQueues(), activeOrder[k])
      requires forall id :: id in required ==> Schedulable(graph.configs, graph.flows, graph.NumberOfEgressQueues(), id)
      modifies ul
      ensures ul.Valid() && Planned(r, activeOrder, required, admitted) && Holds(ul, activeOrder, required, admitted)
      ensures InputOk(graph.configs, graph.flows, graph.NumberOfEgressQueues(), r)
      ensures Simulation(graph.configs, graph.flows, graph.NumberOfEgressQueues(), hyperCycle, r).0 == None
    {
      var ids := FirstFit.SortedIds(required);
      FirstFit.AscendingMembers(required);
      r := Schedule(activeOrder, ids, admitted, ul);
    }
  }
}
