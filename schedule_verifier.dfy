/**
 * The slot-list checks of the schedule verifier (src/util/ScheduleVerifier.cpp): the order of
 * every free list, the order of every reserved list, and whether the two lists of each egress
 * queue are inverses of each other.  A check that throws is modelled as the Violation it
 * reports: the rule, the egress queue, and the slot index (or tick) the message names.
 */
module ScheduleVerifier {
  import opened Optional
  import opened Slots
  import opened UtilizationList
  import Graph

  /**
   * The rules the verifier enforces, one per validationError it can throw, and the two
   * std::out_of_range exceptions of the graph's lookups: UnknownQueue when getEgressQueue is asked
   * for a queue past the queue vector, UnknownFlow when getFlow is asked for a flow the graph
   * does not hold.
   */
  datatype Rule =
    | FreeTooShort | FreeUnsorted | FreeAdjacent | FreeBeyondCycle
    | ReservedTooShort | ReservedUnsorted | ReservedBeyondCycle
    | QueueCountMismatch | NotInverse
    | PeriodBelowOne | CycleNotMultiple
    | StrayFrame | WrongFrameSize | OutsideStrand | WrongSource | WrongHandover
    | ForwardedEarly | CrossedItself | DeadlineMissed | FlowUnfinished
    | NotFullDuplex | UnknownQueue | UnknownFlow

  /** A broken rule, the egress queue it was found on and the slot index or tick reported. */
  datatype Violation = Violation(rule: Rule, queue: nat, at: nat)

  /** The two nodes of an egress queue: the device sending on it and the neighbour it reaches. */
  datatype Port = Port(source: nat, destination: nat)

  /** A step that either yields a value or throws for a rule. */
  datatype Checked<T> = Pass(value: T) | Fail(rule: Rule)

  // ---------------------------------------------------------------------------
  // findSourceNodeOfQueue

  /**
   * The egress queues of the graph as MultiLayeredGraph stores them: device d owns the queues
   * edges[offsets[d]..offsets[d + 1]].
   */
  datatype Wiring = Wiring(offsets: seq<nat>, edges: seq<Graph.EgressQueue>)

  /** The offsets ascend from 0 to the number of queues. */
  predicate CsrOk(w: Wiring) {
    |w.offsets| >= 1 && w.offsets[0] == 0 && w.offsets[|w.offsets| - 1] == |w.edges| &&
    (forall d :: 0 <= d < |w.offsets| - 1 ==> w.offsets[d] <= w.offsets[d + 1]) &&
    (forall d :: 0 <= d < |w.offsets| ==> w.offsets[d] <= |w.edges|)
  }

  /**
   * What the lookups need of the graph: well-formed offsets, and every queue leading to a device
   * of the graph (getEgressQueuesOf indexes the offsets without a bounds check).
   */
  predicate WiringOk(w: Wiring) {
    CsrOk(w) && forall i :: 0 <= i < |w.edges| ==> w.edges[i].destination < |w.offsets| - 1
  }

  /** getEgressQueuesOf: the queues of device d. */
  function QueuesOf(w: Wiring, d: nat): seq<Graph.EgressQueue>
    requires CsrOk(w) && d < |w.offsets| - 1
  {
    w.edges[w.offsets[d]..w.offsets[d + 1]]
  }

  lemma QueuesLeadToDevices(w: Wiring, d: nat)
    requires WiringOk(w) && d < |w.offsets| - 1
    ensures forall j :: 0 <= j < |QueuesOf(w, d)| ==> QueuesOf(w, d)[j].destination < |w.offsets| - 1
  {
    forall j | 0 <= j < |QueuesOf(w, d)| ensures QueuesOf(w, d)[j].destination < |w.offsets| - 1 {
      assert QueuesOf(w, d)[j] == w.edges[w.offsets[d] + j];
    }
  }

  /** The inner loop's test: device d has a queue with the id q. */
  predicate HasQueue(w: Wiring, d: nat, q: nat)
    requires CsrOk(w) && d < |w.offsets| - 1
  {
    exists k :: 0 <= k < |QueuesOf(w, d)| && QueuesOf(w, d)[k].id == q
  }

  /**
   * The outer loop from the reverse queue k on: the first device reached from the queue's
   * destination that has the queue, or none.
   */
  function FindSource(w: Wiring, q: nat, reverse: seq<Graph.EgressQueue>, k: nat): Option<nat>
    requires CsrOk(w) && k <= |reverse|
    requires forall j :: 0 <= j < |reverse| ==> reverse[j].destination < |w.offsets| - 1
    decreases |reverse| - k
  {
    if k == |reverse| then None
    else if HasQueue(w, reverse[k].destination, q) then Some(reverse[k].destination)
    else FindSource(w, q, reverse, k + 1)
  }

  /**
   * The search finds nothing exactly when no device reached from k on has the queue, and what
   * it finds is such a device.
   */
  lemma {:induction false} FindSourceFinds(w: Wiring, q: nat, reverse: seq<Graph.EgressQueue>, k: nat)
    requires CsrOk(w) && k <= |reverse|
    requires forall j :: 0 <= j < |reverse| ==> reverse[j].destination < |w.offsets| - 1
    ensures FindSource(w, q, reverse, k).None? <==>
      forall j :: k <= j < |reverse| ==> !HasQueue(w, reverse[j].destination, q)
    ensures FindSource(w, q, reverse, k).Some? ==>
      exists j :: k <= j < |reverse| && reverse[j].destination == FindSource(w, q, reverse, k).value &&
        HasQueue(w, reverse[j].destination, q)
    decreases |reverse| - k
  {
    if k < |reverse| {
      FindSourceFinds(w, q, reverse, k + 1);
    }
  }

  /** findSourceNodeOfQueue: the device queue q leaves from, searched among its destination's neighbours. */
  function SourceOf(w: Wiring, q: nat): Option<nat>
    requires WiringOk(w) && q < |w.edges|
  {
    QueuesLeadToDevices(w, w.edges[q].destination);
    FindSource(w, q, QueuesOf(w, w.edges[q].destination), 0)
  }

  /**
   * The ports of queue q as the checks look them up: getEgressQueue throws std::out_of_range past
   * the queue vector, findSourceNodeOfQueue throws when no neighbour of the destination has
   * the queue.
   */
  function PortsOf(w: Wiring, q: nat): Checked<Port>
    requires WiringOk(w)
  {
    if q >= |w.edges| then Fail(UnknownQueue)
    else match SourceOf(w, q)
      case None => Fail(NotFullDuplex)
      case Some(s) => Pass(Port(s, w.edges[q].destination))
  }

  /**
   * The lookups of queues 0 to n - 1. The lookup depends on the graph alone, so the checks
   * below are stated over this table; each method still looks the ports up at the head of the
   * queue's turn.
   */
  function PortTable(w: Wiring, n: nat): (r: seq<Checked<Port>>)
    requires WiringOk(w)
    ensures |r| == n && forall q :: 0 <= q < n ==> r[q] == PortsOf(w, q)
  {
    seq(n, q requires 0 <= q < n => PortsOf(w, q))
  }

  /** findSourceNodeOfQueue's inner loop over the queues of a suspect. */
  method SearchQueues(w: Wiring, d: nat, q: nat) returns (found: bool)
    requires CsrOk(w) && d < |w.offsets| - 1
    ensures found == HasQueue(w, d, q)
  {
    var queues := QueuesOf(w, d);
    var j := 0;
    while j < |queues|
      invariant j <= |queues|
      invariant forall i :: 0 <= i < j ==> queues[i].id != q
    {
      if queues[j].id == q {
        return true;
      }
      j := j + 1;
    }
    return false;
  }

  /** findSourceNodeOfQueue: its outer loop over the neighbours of the queue's destination. */
  method FindSourceNodeOfQueue(w: Wiring, q: nat) returns (r: Option<nat>)
    requires WiringOk(w) && q < |w.edges|
    ensures r == SourceOf(w, q)
  {
    var reverse := QueuesOf(w, w.edges[q].destination);
    QueuesLeadToDevices(w, w.edges[q].destination);
    var k := 0;
    while k < |reverse|
      invariant k <= |reverse|
      invariant FindSource(w, q, reverse, k) == SourceOf(w, q)
    {
      var suspect := reverse[k].destination;
      var found := SearchQueues(w, suspect, q);
      if found {
        return Some(suspect);
      }
      k := k + 1;
    }
    return None;
  }

  /** The lookup of a queue's ports at the head of each check's turn for that queue. */
  method FindPorts(w: Wiring, q: nat) returns (r: Checked<Port>)
    requires WiringOk(w)
    ensures r == PortsOf(w, q)
  {
    if q >= |w.edges| {
      return Fail(UnknownQueue);
    }
    var source := FindSourceNodeOfQueue(w, q);
    if source.None? {
      return Fail(NotFullDuplex);
    }
    return Pass(Port(source.value, w.edges[q].destination));
  }

  /** Queue ids are their indices in the queue vector, as the graph numbers them. */
  predicate IdsAreIndices(w: Wiring) {
    forall i :: 0 <= i < |w.edges| ==> w.edges[i].id == i
  }

  /** Device s owns queue q. */
  predicate Owner(w: Wiring, s: nat, q: nat)
    requires CsrOk(w)
  {
    s < |w.offsets| - 1 && w.offsets[s] <= q < w.offsets[s + 1]
  }

  /** Device d has a queue leading to device s. */
  predicate Reaches(w: Wiring, d: nat, s: nat)
    requires CsrOk(w) && d < |w.offsets| - 1
  {
    exists k :: 0 <= k < |QueuesOf(w, d)| && QueuesOf(w, d)[k].destination == s
  }

  /** A full-duplex graph: the destination of every queue has a queue back to the queue's owner. */
  ghost predicate FullDuplex(w: Wiring)
    requires WiringOk(w)
  {
    forall s: nat, q: nat :: Owner(w, s, q) ==> Reaches(w, w.edges[q].destination, s)
  }

  /** With ids equal to indices, a device has queue q exactly when it owns it. */
  lemma HasQueueIsOwner(w: Wiring, d: nat, q: nat)
    requires CsrOk(w) && IdsAreIndices(w) && d < |w.offsets| - 1
    ensures HasQueue(w, d, q) <==> Owner(w, d, q)
  {
    if Owner(w, d, q) {
      assert QueuesOf(w, d)[q - w.offsets[d]] == w.edges[q];
    }
    if HasQueue(w, d, q) {
      var k :| 0 <= k < |QueuesOf(w, d)| && QueuesOf(w, d)[k].id == q;
      assert QueuesOf(w, d)[k] == w.edges[w.offsets[d] + k];
    }
  }

  /** The slices of different devices do not overlap. */
  lemma OwnerUnique(w: Wiring, s: nat, t: nat, q: nat)
    requires CsrOk(w) && Owner(w, s, q) && Owner(w, t, q)
    ensures s == t
  {
    if s < t {
      Graph.OffsetsMonotone(w.offsets, s + 1, t);
    } else if t < s {
      Graph.OffsetsMonotone(w.offsets, t + 1, s);
    }
  }

  /** The slices from device d on cover every queue from offsets[d] on. */
  lemma {:induction false} OwnerFrom(w: Wiring, q: nat, d: nat) returns (s: nat)
    requires CsrOk(w) && q < |w.edges| && d < |w.offsets| - 1 && w.offsets[d] <= q
    ensures Owner(w, s, q)
    decreases |w.offsets| - d
  {
    if q < w.offsets[d + 1] {
      s := d;
    } else {
      s := OwnerFrom(w, q, d + 1);
    }
  }

  /**
   * With ids equal to indices, the lookup of queue q of device s succeeds exactly when the
   * queue's destination has a queue back to s, and then names s as the source.
   */
  lemma SourceIsOwner(w: Wiring, s: nat, q: nat)
    requires WiringOk(w) && IdsAreIndices(w) && Owner(w, s, q)
    ensures PortsOf(w, q).Pass? <==> Reaches(w, w.edges[q].destination, s)
    ensures PortsOf(w, q).Pass? ==> PortsOf(w, q).value == Port(s, w.edges[q].destination)
  {
    var d := w.edges[q].destination;
    var reverse := QueuesOf(w, d);
    QueuesLeadToDevices(w, d);
    FindSourceFinds(w, q, reverse, 0);
    forall j | 0 <= j < |reverse| ensures HasQueue(w, reverse[j].destination, q) <==> reverse[j].destination == s {
      HasQueueIsOwner(w, reverse[j].destination, q);
      if Owner(w, reverse[j].destination, q) {
        OwnerUnique(w, s, reverse[j].destination, q);
      }
    }
  }

  /** With ids equal to indices, no queue's lookup throws exactly when the graph is full duplex. */
  lemma FullDuplexIff(w: Wiring)
    requires WiringOk(w) && IdsAreIndices(w)
    ensures FullDuplex(w) <==> forall q :: 0 <= q < |w.edges| ==> PortsOf(w, q).Pass?
  {
    if FullDuplex(w) {
      forall q | 0 <= q < |w.edges| ensures PortsOf(w, q).Pass? {
        var s := OwnerFrom(w, q, 0);
        SourceIsOwner(w, s, q);
      }
    }
    if forall q :: 0 <= q < |w.edges| ==> PortsOf(w, q).Pass? {
      forall s: nat, q: nat | Owner(w, s, q) ensures Reaches(w, w.edges[q].destination, s) {
        SourceIsOwner(w, s, q);
      }
    }
  }

  // ---------------------------------------------------------------------------
  // checkFreeSlotOrder

  /**
   * The first rule slot i or a later slot of a free list breaks, with `next` the first tick
   * slot i may use (0 before the first slot, else one past the tick after the previous slot).
   */
  function FreeOrderError(l: seq<FreeSlot>, hc: nat, next: nat, i: nat): Option<(Rule, nat)>
    requires i <= |l|
    decreases |l| - i
  {
    if i == |l| then None
    else if l[i].start > l[i].last then Some((FreeTooShort, i))
    else if l[i].start < next then Some((FreeUnsorted, i))
    else if l[i].start == next && next != 0 then Some((FreeAdjacent, i))
    else if l[i].last >= hc then Some((FreeBeyondCycle, i))
    else FreeOrderError(l, hc, l[i].last + 1, i + 1)
  }

  /** The tick the scan allows slot i to start at. */
  function FreeAllowed(l: seq<FreeSlot>, i: nat): nat
    requires i <= |l|
  {
    if i == 0 then 0 else l[i - 1].last + 1
  }

  /** Slots i.. are well formed and each keeps a gap to its predecessor. */
  predicate FreeTailChained(l: seq<FreeSlot>, hc: nat, i: nat)
    requires i <= |l|
  {
    (forall k :: i <= k < |l| ==> l[k].start <= l[k].last < hc) &&
    (forall k :: i <= k < |l| && 0 < k ==> l[k - 1].last + 1 < l[k].start)
  }

  lemma {:induction false} FreeScanFrom(l: seq<FreeSlot>, hc: nat, i: nat)
    requires i <= |l|
    ensures FreeOrderError(l, hc, FreeAllowed(l, i), i).None? <==> FreeTailChained(l, hc, i)
    decreases |l| - i
  {
    if i < |l| {
      FreeScanFrom(l, hc, i + 1);
    }
  }

  /** A free list passes the scan exactly when it is valid: sorted, non-adjacent, inside [0, hc). */
  lemma FreeOrderErrorIff(l: seq<FreeSlot>, hc: nat)
    ensures FreeOrderError(l, hc, 0, 0).None? <==> FreeListValid(l, hc)
  {
    FreeScanFrom(l, hc, 0);
    ChainedIsValid(l, hc);
    assert FreeTailChained(l, hc, 0) <==> FreeListChained(l, hc) by {
      if FreeTailChained(l, hc, 0) {
        forall k | 0 <= k < |l| - 1 ensures l[k].last + 1 < l[k + 1].start {
          assert 0 < k + 1 < |l|;
        }
      }
      if FreeListChained(l, hc) {
        forall k | 0 < k < |l| ensures l[k - 1].last + 1 < l[k].start {
          assert 0 <= k - 1 < |l| - 1;
        }
      }
    }
  }

  /** The first queue from q on whose port lookup throws or whose free list breaks a rule. */
  function FreeViolation(ports: seq<Checked<Port>>, free: seq<seq<FreeSlot>>, hc: nat, q: nat): Option<Violation>
    requires q <= |free| <= |ports|
    decreases |free| - q
  {
    if q == |free| then None
    else if ports[q].Fail? then Some(Violation(ports[q].rule, q, 0))
    else match FreeOrderError(free[q], hc, 0, 0)
      case Some(e) => Some(Violation(e.0, q, e.1))
      case None => FreeViolation(ports, free, hc, q + 1)
  }

  lemma {:induction false} FreeViolationFrom(ports: seq<Checked<Port>>, free: seq<seq<FreeSlot>>, hc: nat, q: nat)
    requires q <= |free| <= |ports|
    ensures FreeViolation(ports, free, hc, q).None? <==>
      forall p :: q <= p < |free| ==> ports[p].Pass? && FreeListValid(free[p], hc)
    ensures FreeViolation(ports, free, hc, q).Some? ==> FreeViolation(ports, free, hc, q).value.queue < |free|
    decreases |free| - q
  {
    if q < |free| {
      FreeOrderErrorIff(free[q], hc);
      FreeViolationFrom(ports, free, hc, q + 1);
    }
  }

  /**
   * checkFreeSlotOrder: queue after queue, the ports of the queue are looked up, then its slots
   * are checked one after the other; the first broken rule is reported.
   */
  method CheckFreeSlotOrder(w: Wiring, hc: nat, free: seq<seq<FreeSlot>>) returns (r: Option<Violation>)
    requires WiringOk(w)
    ensures r == FreeViolation(PortTable(w, |free|), free, hc, 0)
    ensures r.None? <==> forall q :: 0 <= q < |free| ==> PortsOf(w, q).Pass? && FreeListValid(free[q], hc)
  {
    ghost var ports := PortTable(w, |free|);
    var q := 0;
    while q < |free|
      invariant q <= |free|
      invariant FreeViolation(ports, free, hc, q) == FreeViolation(ports, free, hc, 0)
    {
      var lookup := FindPorts(w, q);
      if lookup.Fail? {
        FreeViolationFrom(ports, free, hc, 0);
        return Some(Violation(lookup.rule, q, 0));
      }
      var e := CheckFreeList(hc, free[q]);
      if e.Some? {
        FreeViolationFrom(ports, free, hc, 0);
        return Some(Violation(e.value.0, q, e.value.1));
      }
      q := q + 1;
    }
    FreeViolationFrom(ports, free, hc, 0);
    return None;
  }

  /** The slot loop of checkFreeSlotOrder over one queue: the first broken rule and the slot index. */
  method CheckFreeList(hc: nat, l: seq<FreeSlot>) returns (e: Option<(Rule, nat)>)
    ensures e == FreeOrderError(l, hc, 0, 0)
    ensures e.None? <==> FreeListValid(l, hc)
  {
    FreeOrderErrorIff(l, hc);
    var next: nat := 0;
    var i := 0;
    while i < |l|
      invariant i <= |l|
      invariant FreeOrderError(l, hc, next, i) == FreeOrderError(l, hc, 0, 0)
    {
      var s := l[i];
      if s.start > s.last {
        return Some((FreeTooShort, i));
      }
      if s.start < next {
        return Some((FreeUnsorted, i));
      }
      if s.start == next && next != 0 {
        return Some((FreeAdjacent, i));
      }
      if s.last >= hc {
        return Some((FreeBeyondCycle, i));
      }
      next := s.last + 1;
      i := i + 1;
    }
    return None;
  }

  // ---------------------------------------------------------------------------
  // checkReservedSlotOrder

  /** The first rule slot i or a later slot of a reserved list breaks, `next` as for free lists. */
  function ReservedOrderError(l: seq<ReservedSlot>, hc: nat, next: nat, i: nat): Option<(Rule, nat)>
    requires i <= |l|
    decreases |l| - i
  {
    if i == |l| then None
    else if l[i].start >= l[i].next then Some((ReservedTooShort, i))
    else if l[i].start < next then Some((ReservedUnsorted, i))
    else if l[i].next > hc then Some((ReservedBeyondCycle, i))
    else ReservedOrderError(l, hc, l[i].next, i + 1)
  }

  /** A reserved list in the order the scan demands: non-empty slots, each after its predecessor. */
  predicate ReservedChained(r: seq<ReservedSlot>, hc: nat) {
    (forall k :: 0 <= k < |r| ==> r[k].start < r[k].next <= hc) &&
    (forall k :: 0 < k < |r| ==> r[k - 1].next <= r[k].start)
  }

  predicate ReservedTailChained(r: seq<ReservedSlot>, hc: nat, i: nat)
    requires i <= |r|
  {
    (forall k :: i <= k < |r| ==> r[k].start < r[k].next <= hc) &&
    (forall k :: i <= k < |r| && 0 < k ==> r[k - 1].next <= r[k].start)
  }

  lemma {:induction false} ReservedScanFrom(l: seq<ReservedSlot>, hc: nat, i: nat)
    requires i <= |l|
    ensures ReservedOrderError(l, hc, if i == 0 then 0 else l[i - 1].next, i).None? <==> ReservedTailChained(l, hc, i)
    decreases |l| - i
  {
    if i < |l| {
      ReservedScanFrom(l, hc, i + 1);
    }
  }

  /** A reserved list passes the scan exactly when it is chained. */
  lemma ReservedOrderErrorIff(l: seq<ReservedSlot>, hc: nat)
    ensures ReservedOrderError(l, hc, 0, 0).None? <==> ReservedChained(l, hc)
  {
    ReservedScanFrom(l, hc, 0);
  }

  /** In a chained list every slot ends no later than any later slot starts. */
  lemma {:induction false} ReservedChainedSorted(r: seq<ReservedSlot>, hc: nat, j: nat, k: nat)
    requires ReservedChained(r, hc) && j < k < |r|
    ensures r[j].next <= r[k].start
    decreases k - j
  {
    if j + 1 < k {
      ReservedChainedSorted(r, hc, j + 1, k);
    }
  }

  /** A chained list is a valid reserved list: non-empty slots, pairwise disjoint, inside [0, hc). */
  lemma ReservedChainedIsValid(r: seq<ReservedSlot>, hc: nat)
    requires ReservedChained(r, hc)
    ensures ReservedListValid(r, hc)
  {
    forall j, k | 0 <= j < |r| && 0 <= k < |r| && j != k ensures Apart(r[j], r[k]) {
      if j < k {
        ReservedChainedSorted(r, hc, j, k);
      } else {
        ReservedChainedSorted(r, hc, k, j);
      }
    }
  }

  /** The first queue from q on whose port lookup throws or whose reserved list breaks a rule. */
  function ReservedViolation(ports: seq<Checked<Port>>, reserved: seq<seq<ReservedSlot>>, hc: nat, q: nat): Option<Violation>
    requires q <= |reserved| <= |ports|
    decreases |reserved| - q
  {
    if q == |reserved| then None
    else if ports[q].Fail? then Some(Violation(ports[q].rule, q, 0))
    else match ReservedOrderError(reserved[q], hc, 0, 0)
      case Some(e) => Some(Violation(e.0, q, e.1))
      case None => ReservedViolation(ports, reserved, hc, q + 1)
  }

  lemma {:induction false} ReservedViolationFrom(ports: seq<Checked<Port>>, reserved: seq<seq<ReservedSlot>>, hc: nat, q: nat)
    requires q <= |reserved| <= |ports|
    ensures ReservedViolation(ports, reserved, hc, q).None? <==>
      forall p :: q <= p < |reserved| ==> ports[p].Pass? && ReservedChained(reserved[p], hc)
    decreases |reserved| - q
  {
    if q < |reserved| {
      ReservedOrderErrorIff(reserved[q], hc);
      ReservedViolationFrom(ports, reserved, hc, q + 1);
    }
  }

  /** checkReservedSlotOrder: the first broken rule, queue after queue and slot after slot. */
  method CheckReservedSlotOrder(w: Wiring, hc: nat, reserved: seq<seq<ReservedSlot>>) returns (r: Option<Violation>)
    requires WiringOk(w)
    ensures r == ReservedViolation(PortTable(w, |reserved|), reserved, hc, 0)
    ensures r.None? <==> forall q :: 0 <= q < |reserved| ==> PortsOf(w, q).Pass? && ReservedChained(reserved[q], hc)
  {
    ghost var ports := PortTable(w, |reserved|);
    ReservedViolationFrom(ports, reserved, hc, 0);
    var q := 0;
    while q < |reserved|
      invariant q <= |reserved|
      invariant ReservedViolation(ports, reserved, hc, q) == ReservedViolation(ports, reserved, hc, 0)
    {
      var lookup := FindPorts(w, q);
      if lookup.Fail? {
        return Some(Violation(lookup.rule, q, 0));
      }
      var e := CheckReservedList(hc, reserved[q]);
      if e.Some? {
        return Some(Violation(e.value.0, q, e.value.1));
      }
      q := q + 1;
    }
    return None;
  }

  /** The slot loop of checkReservedSlotOrder over one queue: the first broken rule and the slot index. */
  method CheckReservedList(hc: nat, l: seq<ReservedSlot>) returns (e: Option<(Rule, nat)>)
    ensures e == ReservedOrderError(l, hc, 0, 0)
    ensures e.None? <==> ReservedChained(l, hc)
  {
    ReservedOrderErrorIff(l, hc);
    var next: nat := 0;
    var i := 0;
    while i < |l|
      invariant i <= |l|
      invariant ReservedOrderError(l, hc, next, i) == ReservedOrderError(l, hc, 0, 0)
    {
      var s := l[i];
      if s.start >= s.next {
        return Some((ReservedTooShort, i));
      }
      if s.start < next {
        return Some((ReservedUnsorted, i));
      }
      if s.next > hc {
        return Some((ReservedBeyondCycle, i));
      }
      next := s.next;
      i := i + 1;
    }
    return None;
  }

  // ---------------------------------------------------------------------------
  // checkSlotsForInverses

  /** Where the walk over one queue ends: at the hyper-cycle with both cursors, or stuck at a tick. */
  datatype Walk = Reached(freeCursor: nat, reservedCursor: nat) | Stuck(tick: nat)

  /**
   * The walk from tick `next`: a free slot starting there is preferred, then a reserved one;
   * the walk ends as soon as it reaches the hyper-cycle (size_t arithmetic on the free bound).
   */
  function InverseWalk(f: seq<FreeSlot>, r: seq<ReservedSlot>, hc: nat, next: nat, fc: nat, rc: nat): Walk
    requires SizeTFree(f) && fc <= |f| && rc <= |r|
    decreases |f| - fc + |r| - rc
  {
    if next == hc then Reached(fc, rc)
    else if fc < |f| && f[fc].start == next then InverseWalk(f, r, hc, WrapAdd(f[fc].last, 1), fc + 1, rc)
    else if rc < |r| && r[rc].start == next then InverseWalk(f, r, hc, r[rc].next, fc, rc + 1)
    else Stuck(next)
  }

  /** The check as written accepts a queue when the walk reaches the hyper-cycle. */
  predicate WalkAccepts(f: seq<FreeSlot>, r: seq<ReservedSlot>, hc: nat)
    requires SizeTFree(f)
  {
    InverseWalk(f, r, hc, 0, 0, 0).Reached?
  }

  /** The intended check: the walk reaches the hyper-cycle having used up both lists. */
  predicate InversesHold(f: seq<FreeSlot>, r: seq<ReservedSlot>, hc: nat)
    requires SizeTFree(f)
  {
    InverseWalk(f, r, hc, 0, 0, 0) == Reached(|f|, |r|)
  }

  function InverseViolationFrom(ports: seq<Checked<Port>>, free: seq<seq<FreeSlot>>, reserved: seq<seq<ReservedSlot>>, hc: nat, q: nat): Option<Violation>
    requires |free| == |reserved| && q <= |free| <= |ports|
    requires forall p :: 0 <= p < |free| ==> SizeTFree(free[p])
    decreases |free| - q
  {
    if q == |free| then None
    else if ports[q].Fail? then Some(Violation(ports[q].rule, q, 0))
    else match InverseWalk(free[q], reserved[q], hc, 0, 0, 0)
      case Stuck(t) => Some(Violation(NotInverse, q, t))
      case Reached(_, _) => InverseViolationFrom(ports, free, reserved, hc, q + 1)
  }

  /** What checkSlotsForInverses reports: a count mismatch first, then the first failed lookup or stuck queue. */
  function InverseViolation(ports: seq<Checked<Port>>, free: seq<seq<FreeSlot>>, reserved: seq<seq<ReservedSlot>>, hc: nat): Option<Violation>
    requires |free| <= |ports| && forall p :: 0 <= p < |free| ==> SizeTFree(free[p])
  {
    if |free| != |reserved| then Some(Violation(QueueCountMismatch, 0, 0))
    else InverseViolationFrom(ports, free, reserved, hc, 0)
  }

  lemma {:induction false} InverseViolationFromAccepts(ports: seq<Checked<Port>>, free: seq<seq<FreeSlot>>, reserved: seq<seq<ReservedSlot>>, hc: nat, q: nat)
    requires |free| == |reserved| && q <= |free| <= |ports|
    requires forall p :: 0 <= p < |free| ==> SizeTFree(free[p])
    ensures InverseViolationFrom(ports, free, reserved, hc, q).None? <==>
      forall p :: q <= p < |free| ==> ports[p].Pass? && WalkAccepts(free[p], reserved[p], hc)
    decreases |free| - q
  {
    if q < |free| {
      InverseViolationFromAccepts(ports, free, reserved, hc, q + 1);
    }
  }

  /** checkSlotsForInverses, with the port lookup and the walk over each queue. */
  method CheckSlotsForInverses(w: Wiring, hc: nat, free: seq<seq<FreeSlot>>, reserved: seq<seq<ReservedSlot>>) returns (r: Option<Violation>)
    requires WiringOk(w) && forall p :: 0 <= p < |free| ==> SizeTFree(free[p])
    ensures r == InverseViolation(PortTable(w, |free|), free, reserved, hc)
    ensures r.None? <==> (|free| == |reserved| &&
      forall q :: 0 <= q < |free| ==> PortsOf(w, q).Pass? && WalkAccepts(free[q], reserved[q], hc))
  {
    ghost var ports := PortTable(w, |free|);
    if |free| != |reserved| {
      return Some(Violation(QueueCountMismatch, 0, 0));
    }
    var q := 0;
    while q < |free|
      invariant q <= |free|
      invariant InverseViolationFrom(ports, free, reserved, hc, q) == InverseViolation(ports, free, reserved, hc)
    {
      var lookup := FindPorts(w, q);
      if lookup.Fail? {
        InverseViolationFromAccepts(ports, free, reserved, hc, 0);
        return Some(Violation(lookup.rule, q, 0));
      }
      var f := free[q];
      var l := reserved[q];
      var next: nat := 0;
      var fc := 0;
      var rc := 0;
      while next != hc
        invariant fc <= |f| && rc <= |l|
        invariant InverseWalk(f, l, hc, next, fc, rc) == InverseWalk(f, l, hc, 0, 0, 0)
        decreases |f| - fc + |l| - rc
      {
        if fc < |f| && f[fc].start == next {
          next := WrapAdd(f[fc].last, 1);
          fc := fc + 1;
        } else if rc < |l| && l[rc].start == next {
          next := l[rc].next;
          rc := rc + 1;
        } else {
          InverseViolationFromAccepts(ports, free, reserved, hc, 0);
          return Some(Violation(NotInverse, q, next));
        }
      }
      q := q + 1;
    }
    InverseViolationFromAccepts(ports, free, reserved, hc, 0);
    return None;
  }

  // ---------------------------------------------------------------------------
  // What the walk establishes

  /** The slots before the cursors cover exactly [0, next), and no tick twice. */
  ghost predicate CoversExactly(f: seq<FreeSlot>, r: seq<ReservedSlot>, fc: nat, rc: nat, next: nat)
    requires fc <= |f| && rc <= |r|
  {
    (forall t :: FreeAt(f[..fc], t) || ReservedAt(r[..rc], t) <==> 0 <= t < next) &&
    (forall t :: !(FreeAt(f[..fc], t) && ReservedAt(r[..rc], t)))
  }

  lemma FreePrefixStep(f: seq<FreeSlot>, fc: nat, t: int)
    requires fc < |f|
    ensures FreeAt(f[..fc + 1], t) <==> FreeAt(f[..fc], t) || InFree(f[fc], t)
  {
    assert f[..fc + 1] == f[..fc] + [f[fc]];
    FreeAtConcat(f[..fc], [f[fc]], t);
    FreeAtSingle(f[fc], t);
  }

  lemma ReservedPrefixStep(r: seq<ReservedSlot>, rc: nat, t: int)
    requires rc < |r|
    ensures ReservedAt(r[..rc + 1], t) <==> ReservedAt(r[..rc], t) || InReserved(r[rc], t)
  {
    assert r[..rc + 1] == r[..rc] + [r[rc]];
    ReservedAtSnoc(r[..rc], r[rc], t);
  }

  /** Taking free slot fc at tick next extends the exact cover to one past its last tick. */
  lemma CoverFreeStep(f: seq<FreeSlot>, r: seq<ReservedSlot>, fc: nat, rc: nat, next: nat)
    requires fc < |f| && rc <= |r| && f[fc].start == next <= f[fc].last
    requires CoversExactly(f, r, fc, rc, next)
    ensures CoversExactly(f, r, fc + 1, rc, f[fc].last + 1)
  {
    var a, b := f[..fc + 1], r[..rc];
    forall t ensures (FreeAt(a, t) || ReservedAt(b, t)) <==> 0 <= t < f[fc].last + 1 {
      FreePrefixStep(f, fc, t);
      assert (FreeAt(f[..fc], t) || ReservedAt(b, t)) <==> 0 <= t < next;
    }
    forall t ensures !(FreeAt(a, t) && ReservedAt(b, t)) {
      FreePrefixStep(f, fc, t);
      assert !(FreeAt(f[..fc], t) && ReservedAt(b, t));
      assert ReservedAt(b, t) ==> t < next;
    }
  }

  /** Taking reserved slot rc at tick next extends the exact cover to the slot's end. */
  lemma CoverReservedStep(f: seq<FreeSlot>, r: seq<ReservedSlot>, fc: nat, rc: nat, next: nat)
    requires fc <= |f| && rc < |r| && r[rc].start == next < r[rc].next
    requires CoversExactly(f, r, fc, rc, next)
    ensures CoversExactly(f, r, fc, rc + 1, r[rc].next)
  {
    var a, b := f[..fc], r[..rc + 1];
    forall t ensures (FreeAt(a, t) || ReservedAt(b, t)) <==> 0 <= t < r[rc].next {
      ReservedPrefixStep(r, rc, t);
      assert (FreeAt(a, t) || ReservedAt(r[..rc], t)) <==> 0 <= t < next;
    }
    forall t ensures !(FreeAt(a, t) && ReservedAt(b, t)) {
      ReservedPrefixStep(r, rc, t);
      assert !(FreeAt(a, t) && ReservedAt(r[..rc], t));
      assert FreeAt(a, t) ==> t < next;
    }
  }

  /** A walk that uses up both lists leaves them covering [0, hc) exactly. */
  lemma {:induction false} WalkCovers(f: seq<FreeSlot>, r: seq<ReservedSlot>, hc: nat, next: nat, fc: nat, rc: nat)
    requires FreeListChained(f, hc) && ReservedChained(r, hc) && hc <= SizeMax
    requires fc <= |f| && rc <= |r| && next <= hc
    requires CoversExactly(f, r, fc, rc, next)
    requires InverseWalk(f, r, hc, next, fc, rc) == Reached(|f|, |r|)
    ensures CoversExactly(f, r, |f|, |r|, hc)
    decreases |f| - fc + |r| - rc
  {
    if next != hc {
      if fc < |f| && f[fc].start == next {
        CoverFreeStep(f, r, fc, rc, next);
        WalkCovers(f, r, hc, f[fc].last + 1, fc + 1, rc);
      } else {
        CoverReservedStep(f, r, fc, rc, next);
        WalkCovers(f, r, hc, r[rc].next, fc, rc + 1);
      }
    }
  }

  /** In a sorted free list no slot from fc on holds a tick before the start of slot fc. */
  lemma FreeTailAfter(f: seq<FreeSlot>, hc: nat, fc: nat, t: int)
    requires FreeListChained(f, hc) && fc < |f| && t < f[fc].start
    ensures forall k :: fc <= k < |f| ==> !InFree(f[k], t)
  {
    ChainedIsValid(f, hc);
  }

  lemma ReservedTailAfter(r: seq<ReservedSlot>, hc: nat, rc: nat, t: int)
    requires ReservedChained(r, hc) && rc < |r| && t < r[rc].start
    ensures forall k :: rc <= k < |r| ==> !InReserved(r[k], t)
  {
    forall k | rc < k < |r| ensures r[rc].start <= r[k].start {
      ReservedChainedSorted(r, hc, rc, k);
    }
  }

  /**
   * On lists that tile the hyper-cycle, the walk from any exact cover whose unused slots all
   * lie ahead reaches the hyper-cycle with both lists used up.
   */
  lemma {:induction false} TilesWalk(f: seq<FreeSlot>, r: seq<ReservedSlot>, hc: nat, next: nat, fc: nat, rc: nat)
    requires Tiles(f, r, hc) && FreeListChained(f, hc) && ReservedChained(r, hc) && hc <= SizeMax
    requires fc <= |f| && rc <= |r| && next <= hc
    requires CoversExactly(f, r, fc, rc, next)
    requires fc < |f| ==> f[fc].start >= next
    requires rc < |r| ==> r[rc].start >= next
    ensures InverseWalk(f, r, hc, next, fc, rc) == Reached(|f|, |r|)
    decreases |f| - fc + |r| - rc
  {
    assert fc < |f| ==> f[fc].start < hc;
    assert rc < |r| ==> r[rc].start < hc;
    if next < hc {
      if fc < |f| && f[fc].start == next {
        var end := f[fc].last + 1;
        CoverFreeStep(f, r, fc, rc, next);
        if rc < |r| {
          var x := r[rc].start;
          assert InReserved(r[rc], x);
          assert ReservedAt(r, x);
          assert !FreeAt(f, x);
          assert !InFree(f[fc], x);
        }
        TilesWalk(f, r, hc, end, fc + 1, rc);
      } else {
        // The tick `next` is not free: the free slots from fc on start later, those before end earlier.
        if fc < |f| {
          FreeTailAfter(f, hc, fc, next);
        }
        assert !FreeAt(f[..fc], next);
        forall k | 0 <= k < |f| ensures !InFree(f[k], next) {
          if k < fc {
            assert f[..fc][k] == f[k];
          }
        }
        assert ReservedAt(r, next);
        var k :| 0 <= k < |r| && InReserved(r[k], next);
        assert !ReservedAt(r[..rc], next);
        forall j | 0 <= j < rc ensures !InReserved(r[j], next) {
          assert r[..rc][j] == r[j];
        }
        assert k >= rc;
        if rc < k {
          ReservedChainedSorted(r, hc, rc, k);
        }
        assert r[rc].start == next;
        CoverReservedStep(f, r, fc, rc, next);
        if fc < |f| {
          var x := f[fc].start;
          assert InFree(f[fc], x);
          assert FreeAt(f, x);
          assert !ReservedAt(r, x);
          assert !InReserved(r[rc], x);
        }
        TilesWalk(f, r, hc, r[rc].next, fc, rc + 1);
      }
    }
  }

  /**
   * The intended inverse check is exact: on ordered lists, the walk uses up both lists at the
   * hyper-cycle exactly when the free and reserved slots partition [0, hc).
   */
  lemma InverseWalkTiles(f: seq<FreeSlot>, r: seq<ReservedSlot>, hc: nat)
    requires FreeListChained(f, hc) && ReservedChained(r, hc) && hc <= SizeMax
    ensures SizeTFree(f)
    ensures InversesHold(f, r, hc) <==> Tiles(f, r, hc)
  {
    assert f[..0] == [] && r[..0] == [];
    assert CoversExactly(f, r, 0, 0, 0);
    ChainedIsValid(f, hc);
    ReservedChainedIsValid(r, hc);
    if InversesHold(f, r, hc) {
      WalkCovers(f, r, hc, 0, 0, 0);
      assert f[..|f|] == f && r[..|r|] == r;
    }
    if Tiles(f, r, hc) {
      TilesWalk(f, r, hc, 0, 0, 0);
    }
  }

  /**
   * The check as written stops at the hyper-cycle without looking at the slots it did not use:
   * a free slot over the whole cycle hides a reserved slot lying inside it.
   */
  lemma InverseCheckMissesOverlap()
    ensures var f, r := [FreeSlot(0, 9)], [ReservedSlot(2, 3, 0, 0)];
      FreeListChained(f, 10) && ReservedChained(r, 10) &&
      WalkAccepts(f, r, 10) && !InversesHold(f, r, 10) && !Tiles(f, r, 10)
  {
    var f, r := [FreeSlot(0, 9)], [ReservedSlot(2, 3, 0, 0)];
    assert InverseWalk(f, r, 10, 0, 0, 0) == Reached(1, 0);
    assert InFree(f[0], 2) && InReserved(r[0], 2);
    assert FreeAt(f, 2) && ReservedAt(r, 2);
  }
}
