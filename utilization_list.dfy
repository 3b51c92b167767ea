/**
 * common::NetworkUtilizationList (src/solver/UtilizationList.cpp): per egress queue a free
 * list, a reserved list and the arrival records of the reserved frames, updated in place.
 *
 * The tiling invariant `Consistent` (free and reserved slots partition [0, hyper_cycle) on
 * every queue) is what the schedule verifier checks; the lemmas here show which operations
 * keep it.
 */
module UtilizationList {
  import opened Optional
  import opened Slots
  import opened Sorting
  import opened UtilFunctions

  /** One element of flow_arrival_: a flow and the time its frame reached the queue. */
  datatype Arrival = Arrival(flow: nat, time: nat)

  /** The three vectors of the list, as one value. */
  datatype ListState = ListState(free: seq<seq<FreeSlot>>, reserved: seq<seq<ReservedSlot>>, arrivals: seq<seq<Arrival>>)

  /** size_t subtraction: the difference modulo 2^64 of two size_t values. */
  function WrapSub(a: nat, b: nat): (r: nat)
    requires a <= SizeMax && b <= SizeMax
    ensures r <= SizeMax
    ensures r + b == a || r + b == a + SizeMax + 1
  {
    if a >= b then a - b else a + (SizeMax + 1) - b
  }

  /** size_t addition: the sum modulo 2^64 of two size_t values. */
  function WrapAdd(a: nat, b: nat): (r: nat)
    requires a <= SizeMax && b <= SizeMax
    ensures r <= SizeMax
    ensures r == a + b || r + SizeMax + 1 == a + b
  {
    if a + b <= SizeMax then a + b else a + b - (SizeMax + 1)
  }

  // ---------------------------------------------------------------------------
  // reserveSlot as a function of the state

  /** The free list of one queue after reserveSlot: carved when a slot contains the request, else unchanged. */
  function ReserveFree(l: seq<FreeSlot>, start: nat, next: nat): seq<FreeSlot> {
    match FindContaining(l, start, next)
    case None => l
    case Some(k) => CarveAt(l, k, start, next)
  }

  predicate QueuesExist(st: ListState, q: nat) {
    q < |st.free| && q < |st.reserved| && q < |st.arrivals|
  }

  /** reserveSlot's result on a state: true iff a free slot contains the request. */
  predicate ReserveSucceeds(st: ListState, req: Request)
    requires QueuesExist(st, req.queue)
  {
    FindContaining(st.free[req.queue], req.start, req.next).Some?
  }

  /** The state after reserveSlot: reservation and arrival appended in every case, free list edited. */
  function ReserveState(st: ListState, req: Request, flow: nat, config: nat): (r: ListState)
    requires QueuesExist(st, req.queue)
    ensures |r.free| == |st.free| && |r.reserved| == |st.reserved| && |r.arrivals| == |st.arrivals|
  {
    var q := req.queue;
    ListState(
      st.free[q := ReserveFree(st.free[q], req.start, req.next)],
      st.reserved[q := st.reserved[q] + [ReservedSlot(req.start, req.next, flow, config)]],
      st.arrivals[q := st.arrivals[q] + [Arrival(flow, req.arrival)]])
  }

  predicate RequestsFit(st: ListState, reqs: seq<Request>) {
    forall k :: 0 <= k < |reqs| ==> QueuesExist(st, reqs[k].queue)
  }

  /** A run of reserveSlot calls, in order. */
  function ReserveAll(st: ListState, reqs: seq<Request>, flow: nat, config: nat): (r: ListState)
    requires RequestsFit(st, reqs)
    ensures |r.free| == |st.free| && |r.reserved| == |st.reserved| && |r.arrivals| == |st.arrivals|
    decreases |reqs|
  {
    if reqs == [] then st
    else ReserveAll(ReserveState(st, reqs[0], flow, config), reqs[1..], flow, config)
  }

  /** Reservations on one queue after a run: one per request for that queue, whatever the results. */
  lemma {:induction false} ReserveAllCounts(st: ListState, reqs: seq<Request>, flow: nat, config: nat, q: nat)
    requires RequestsFit(st, reqs) && QueuesExist(st, q)
    ensures |ReserveAll(st, reqs, flow, config).reserved[q]| == |st.reserved[q]| + |QueueRequests(reqs, q)|
    ensures |ReserveAll(st, reqs, flow, config).arrivals[q]| == |st.arrivals[q]| + |QueueRequests(reqs, q)|
    decreases |reqs|
  {
    if reqs != [] {
      var st' := ReserveState(st, reqs[0], flow, config);
      assert RequestsFit(st', reqs[1..]);
      ReserveAllCounts(st', reqs[1..], flow, config, q);
    }
  }

  /** The requests of a run that go to queue q. */
  function QueueRequests(reqs: seq<Request>, q: nat): (r: seq<Request>)
    ensures |r| <= |reqs|
    ensures forall x :: x in r <==> x in reqs && x.queue == q
  {
    if reqs == [] then []
    else (if reqs[0].queue == q then [reqs[0]] else []) + QueueRequests(reqs[1..], q)
  }

  // ---------------------------------------------------------------------------
  // Tiling and reserveSlot

  /** The tick after a free slot is not free: free slots never touch. */
  lemma GapAfterSlot(l: seq<FreeSlot>, hc: nat, k: nat)
    requires FreeListValid(l, hc) && k < |l|
    ensures !FreeAt(l, l[k].last + 1)
  {
    forall j | 0 <= j < |l| ensures !InFree(l[j], l[k].last + 1) {
      if j < k {
        assert l[j].last + 1 < l[k].start;
      } else if j > k {
        assert l[k].last + 1 < l[j].start;
      }
    }
  }

  /** Consecutive free ticks of a valid list lie in a single slot. */
  lemma FreeRunInOneSlot(l: seq<FreeSlot>, hc: nat, start: nat, next: nat)
    requires FreeListValid(l, hc) && start < next
    requires forall t :: start <= t < next ==> FreeAt(l, t)
    ensures FindContaining(l, start, next).Some?
  {
    assert FreeAt(l, start);
    var k :| 0 <= k < |l| && InFree(l[k], start);
    GapAfterSlot(l, hc, k);
    assert Contains(l[k], start, next);
  }

  /** A reservation that reserveSlot accepted keeps the queue tiled. */
  lemma ReserveKeepsTiles(f: seq<FreeSlot>, r: seq<ReservedSlot>, hc: nat, s: ReservedSlot)
    requires Tiles(f, r, hc) && s.start < s.next
    requires FindContaining(f, s.start, s.next).Some?
    ensures Tiles(ReserveFree(f, s.start, s.next), r + [s], hc)
  {
    var k := FindContaining(f, s.start, s.next).value;
    var f' := ReserveFree(f, s.start, s.next);
    CarveAtTicks(f, k, s.start, s.next, hc);
    var r' := r + [s];
    assert s.next - 1 <= f[k].last < hc;
    forall j, m | 0 <= j < |r'| && 0 <= m < |r'| && j != m ensures Apart(r'[j], r'[m]) {
      if j == |r| || m == |r| {
        var o := if j == |r| then m else j;
        assert r'[o] == r[o];
        // r[o] is disjoint from the free slot that contained s
        var t := if r[o].start < s.start then s.start else r[o].start;
        assert InReserved(r[o], t) ==> ReservedAt(r, t);
        assert InFree(f[k], t) ==> FreeAt(f, t);
      }
    }
    forall t ensures ReservedAt(r', t) <==> ReservedAt(r, t) || InReserved(s, t) {
      ReservedAtSnoc(r, s, t);
    }
  }

  /**
   * A reservation that reserveSlot refused leaves the queue inconsistent: the free list is
   * unchanged, so the slot it has already appended overlaps a reservation or leaves the
   * hyper-cycle.
   */
  lemma RefusedReserveBreaksTiles(f: seq<FreeSlot>, r: seq<ReservedSlot>, hc: nat, s: ReservedSlot)
    requires Tiles(f, r, hc) && s.start < s.next
    ensures !Tiles(f, r + [s], hc)
  {
    var r' := r + [s];
    var t := s.start;
    assert r'[|r|] == s;
    if t < hc {
      if ReservedAt(r, t) {
        var j :| 0 <= j < |r| && InReserved(r[j], t);
        assert r'[j] == r[j] && !Apart(r'[j], r'[|r|]);
      } else {
        assert FreeAt(f, t) && InReserved(r'[|r|], t);
      }
    }
  }

  // ---------------------------------------------------------------------------
  // removeConfigs' partition

  /** Slots kept by removeConfigs' stable_partition: flows not in the list, in stored order. */
  function KeptSlots(r: seq<ReservedSlot>, flows: seq<nat>): (k: seq<ReservedSlot>)
    ensures |k| <= |r|
  {
    if r == [] then []
    else (if VectorContains(flows, r[0].flow) then [] else [r[0]]) + KeptSlots(r[1..], flows)
  }

  /** Slots removed by removeConfigs: flows in the list, in stored order. */
  function RemovedSlots(r: seq<ReservedSlot>, flows: seq<nat>): (k: seq<ReservedSlot>)
    ensures |k| <= |r|
  {
    if r == [] then []
    else (if VectorContains(flows, r[0].flow) then [r[0]] else []) + RemovedSlots(r[1..], flows)
  }

  /** The kept slots are those of the other flows, the removed ones those of the listed flows. */
  lemma {:induction false} PartitionMembers(r: seq<ReservedSlot>, flows: seq<nat>)
    ensures forall s :: s in KeptSlots(r, flows) <==> s in r && s.flow !in flows
    ensures forall s :: s in RemovedSlots(r, flows) <==> s in r && s.flow in flows
  {
    if r != [] {
      PartitionMembers(r[1..], flows);
      assert r == [r[0]] + r[1..];
    }
  }

  /** The kept arrival records are those of the other flows. */
  lemma {:induction false} KeptArrivalsMembers(a: seq<Arrival>, flows: seq<nat>)
    ensures forall x :: x in KeptArrivals(a, flows) <==> x in a && x.flow !in flows
  {
    if a != [] {
      KeptArrivalsMembers(a[1..], flows);
      assert a == [a[0]] + a[1..];
    }
  }

  /** The two halves of the partition together are a permutation of the list. */
  lemma {:induction false} PartitionIsPermutation(r: seq<ReservedSlot>, flows: seq<nat>)
    ensures multiset(KeptSlots(r, flows)) + multiset(RemovedSlots(r, flows)) == multiset(r)
  {
    if r != [] {
      var rest := r[1..];
      PartitionIsPermutation(rest, flows);
      assert r == [r[0]] + rest;
      assert multiset(r) == multiset{r[0]} + multiset(rest);
      if VectorContains(flows, r[0].flow) {
        assert KeptSlots(r, flows) == KeptSlots(rest, flows);
        assert RemovedSlots(r, flows) == [r[0]] + RemovedSlots(rest, flows);
      } else {
        assert KeptSlots(r, flows) == [r[0]] + KeptSlots(rest, flows);
        assert RemovedSlots(r, flows) == RemovedSlots(rest, flows);
      }
    }
  }

  /** Arrival records kept by removeConfigs. */
  function KeptArrivals(a: seq<Arrival>, flows: seq<nat>): (k: seq<Arrival>)
    ensures |k| <= |a|
  {
    if a == [] then []
    else (if VectorContains(flows, a[0].flow) then [] else [a[0]]) + KeptArrivals(a[1..], flows)
  }

  /** The kept records keep their relative order: the filter distributes over concatenation. */
  lemma {:induction false} KeptSlotsAppend(a: seq<ReservedSlot>, b: seq<ReservedSlot>, flows: seq<nat>)
    ensures KeptSlots(a + b, flows) == KeptSlots(a, flows) + KeptSlots(b, flows)
  {
    if a == [] {
      assert a + b == b;
    } else {
      assert (a + b)[1..] == a[1..] + b;
      KeptSlotsAppend(a[1..], b, flows);
      var h := if VectorContains(flows, a[0].flow) then [] else [a[0]];
      assert KeptSlots(a + b, flows) == h + KeptSlots(a[1..] + b, flows);
      assert KeptSlots(a, flows) == h + KeptSlots(a[1..], flows);
    }
  }

  /** Two equal entries at different positions count twice. */
  lemma {:induction false} DuplicateCountsTwice<T>(s: seq<T>, j: nat, k: nat)
    requires j < k < |s| && s[j] == s[k]
    ensures multiset(s)[s[j]] >= 2
  {
    assert s == s[..j] + [s[j]] + s[j + 1..];
    assert s[k] in s[j + 1..] by {
      assert s[j + 1..][k - j - 1] == s[k];
    }
  }

  /** An entry counted twice sits at two different positions. */
  lemma {:induction false} CountTwiceGivesPositions<T>(s: seq<T>, x: T) returns (j: nat, k: nat)
    requires multiset(s)[x] >= 2
    ensures j < k < |s| && s[j] == x && s[k] == x
  {
    assert s == [s[0]] + s[1..];
    if s[0] == x {
      assert x in multiset(s[1..]);
      assert x in s[1..];
      var m :| 0 <= m < |s| - 1 && s[1..][m] == x;
      j, k := 0, m + 1;
    } else {
      var j', k' := CountTwiceGivesPositions(s[1..], x);
      j, k := j' + 1, k' + 1;
    }
  }

  /** Any sub-multiset of a valid reserved list is valid: its slots stay non-empty and disjoint. */
  lemma SubMultisetValid(a: seq<ReservedSlot>, b: seq<ReservedSlot>, hc: nat)
    requires ReservedListValid(a, hc) && multiset(b) <= multiset(a)
    ensures ReservedListValid(b, hc)
  {
    forall k | 0 <= k < |b| ensures b[k].start < b[k].next <= hc {
      assert b[k] in multiset(a);
    }
    forall j, k | 0 <= j < |b| && 0 <= k < |b| && j != k ensures Apart(b[j], b[k]) {
      if b[j] == b[k] {
        if j < k {
          DuplicateCountsTwice(b, j, k);
        } else {
          DuplicateCountsTwice(b, k, j);
        }
        var p, p' := CountTwiceGivesPositions(a, b[j]);
        assert Apart(a[p], a[p']);
      } else {
        assert b[j] in multiset(a) && b[k] in multiset(a);
        var p :| 0 <= p < |a| && a[p] == b[j];
        var p' :| 0 <= p' < |a| && a[p'] == b[k];
      }
    }
  }

  lemma ReservedAtSameMembers(a: seq<ReservedSlot>, b: seq<ReservedSlot>, t: int)
    requires forall s :: s in a ==> s in b
    ensures ReservedAt(a, t) ==> ReservedAt(b, t)
  {
    if ReservedAt(a, t) {
      var j :| 0 <= j < |a| && InReserved(a[j], t);
      assert a[j] in b;
      var m :| 0 <= m < |b| && b[m] == a[j];
    }
  }

  // ---------------------------------------------------------------------------
  // searchTransmissionOpportunities as functions

  function Max(a: nat, b: nat): nat {
    if a < b then b else a
  }

  function Min(a: nat, b: nat): nat {
    if a < b then a else b
  }

  /** drop_while: skip the slots that end before the frame could be fully sent. */
  function DropEnded(l: seq<FreeSlot>, arrival: nat, tx: nat): (r: seq<FreeSlot>)
    ensures |r| <= |l|
    ensures forall k :: 0 <= k < |l| - |r| ==> l[k].last + 1 < arrival + tx
    ensures r != [] ==> r[0].last + 1 >= arrival + tx
  {
    if l == [] || l[0].last + 1 >= arrival + tx then l
    else
      var r := DropEnded(l[1..], arrival, tx);
      assert forall k :: 1 <= k < |l| ==> l[1..][k - 1] == l[k];
      r
  }

  /** The filter of the search: a transmission of tx ticks from max(start, arrival) fits in the slot and before the deadline. */
  predicate Fits(slot: FreeSlot, arrival: nat, tx: nat, effEnd: nat) {
    Max(slot.start, arrival) + tx <= Min(slot.last + 1, effEnd)
  }

  /** drop_while leaves a suffix of the list. */
  lemma {:induction false} DropEndedIsSuffix(l: seq<FreeSlot>, arrival: nat, tx: nat)
    ensures DropEnded(l, arrival, tx) == l[|l| - |DropEnded(l, arrival, tx)|..]
  {
    if l != [] && l[0].last + 1 < arrival + tx {
      DropEndedIsSuffix(l[1..], arrival, tx);
      assert l[1..][|l| - 1 - |DropEnded(l[1..], arrival, tx)|..] == l[|l| - |DropEnded(l[1..], arrival, tx)|..];
    }
  }

  /** take_while(start <= effective deadline), then the first slot that fits. */
  function FirstFitting(l: seq<FreeSlot>, arrival: nat, tx: nat, eff: nat, effEnd: nat): (r: Option<FreeSlot>)
    ensures r.Some? ==> r.value in l && Fits(r.value, arrival, tx, effEnd)
  {
    if l == [] || l[0].start > eff then None
    else if Fits(l[0], arrival, tx, effEnd) then Some(l[0])
    else FirstFitting(l[1..], arrival, tx, eff, effEnd)
  }

  /** The slot the search takes on one link: the views pipeline of searchTransmissionOpportunities. */
  function FindSlot(l: seq<FreeSlot>, arrival: nat, tx: nat, eff: nat, effEnd: nat): (r: Option<FreeSlot>)
    ensures r.Some? ==> r.value in l && Fits(r.value, arrival, tx, effEnd)
  {
    DropEndedIsSuffix(l, arrival, tx);
    FirstFitting(DropEnded(l, arrival, tx), arrival, tx, eff, effEnd)
  }

  /** Reference definition: the index of the first slot of the whole list that fits. */
  function FirstFitIndex(l: seq<FreeSlot>, arrival: nat, tx: nat, effEnd: nat): (r: Option<nat>)
    ensures r.Some? ==> r.value < |l| && Fits(l[r.value], arrival, tx, effEnd)
    ensures r.Some? ==> forall j :: 0 <= j < r.value ==> !Fits(l[j], arrival, tx, effEnd)
    ensures r.None? <==> forall k :: 0 <= k < |l| ==> !Fits(l[k], arrival, tx, effEnd)
  {
    if l == [] then None
    else if Fits(l[0], arrival, tx, effEnd) then Some(0)
    else match FirstFitIndex(l[1..], arrival, tx, effEnd)
      case None => None
      case Some(k) => Some(k + 1)
  }

  function SlotAt(l: seq<FreeSlot>, o: Option<nat>): Option<FreeSlot> {
    match o
    case Some(k) => if k < |l| then Some(l[k]) else None
    case None => None
  }

  /**
   * When the effective deadline does not wrap (effEnd == eff + tx), the pipeline on a sorted
   * free list picks exactly the first slot of the whole list that fits: the dropped slots and
   * the slots cut off by take_while could not have fitted.
   */
  lemma FindSlotIsFirstFit(l: seq<FreeSlot>, hc: nat, arrival: nat, tx: nat, eff: nat, effEnd: nat)
    requires FreeListValid(l, hc) && effEnd == eff + tx
    ensures FindSlot(l, arrival, tx, eff, effEnd) == SlotAt(l, FirstFitIndex(l, arrival, tx, effEnd))
  {
    var d := DropEnded(l, arrival, tx);
    DropEndedIsSuffix(l, arrival, tx);
    ValidPieces(l, |l| - |d|, |l| - |d|, hc);
    FirstFittingIsFirstFit(d, hc, arrival, tx, eff, effEnd);
    DropEndedKeepsFirstFit(l, arrival, tx, effEnd);
  }

  lemma {:induction false} FirstFittingIsFirstFit(l: seq<FreeSlot>, hc: nat, arrival: nat, tx: nat, eff: nat, effEnd: nat)
    requires FreeListValid(l, hc) && effEnd == eff + tx
    ensures FirstFitting(l, arrival, tx, eff, effEnd) == SlotAt(l, FirstFitIndex(l, arrival, tx, effEnd))
  {
    if l == [] {
    } else if l[0].start > eff {
      forall k | 0 <= k < |l| ensures !Fits(l[k], arrival, tx, effEnd) {
        if k > 0 {
          assert l[0].last + 1 < l[k].start;
        }
      }
    } else if Fits(l[0], arrival, tx, effEnd) {
    } else {
      ValidPieces(l, 1, 1, hc);
      FirstFittingIsFirstFit(l[1..], hc, arrival, tx, eff, effEnd);
    }
  }

  /** The slots drop_while skips cannot fit, so skipping them does not change the first fit. */
  lemma {:induction false} DropEndedKeepsFirstFit(l: seq<FreeSlot>, arrival: nat, tx: nat, effEnd: nat)
    ensures SlotAt(DropEnded(l, arrival, tx), FirstFitIndex(DropEnded(l, arrival, tx), arrival, tx, effEnd))
         == SlotAt(l, FirstFitIndex(l, arrival, tx, effEnd))
  {
    if l != [] && l[0].last + 1 < arrival + tx {
      assert !Fits(l[0], arrival, tx, effEnd);
      DropEndedKeepsFirstFit(l[1..], arrival, tx, effEnd);
    }
  }

  /** The request lies inside one free slot of l. */
  predicate InsideFree(l: seq<FreeSlot>, start: nat, next: nat) {
    exists k :: 0 <= k < |l| && l[k].start <= start && next <= l[k].last + 1
  }

  predicate PathFits(free: seq<seq<FreeSlot>>, path: seq<nat>) {
    forall k :: 0 <= k < |path| ==> path[k] < |free|
  }

  /**
   * The search from one hop on, threading the arrival time: one request per hop, or None as
   * soon as one hop has no fitting slot.
   */
  function SearchFrom(free: seq<seq<FreeSlot>>, path: seq<nat>, tx: nat, arrival: nat, eff: nat, effEnd: nat): (r: Option<seq<Request>>)
    requires PathFits(free, path)
    ensures r.Some? ==> |r.value| == |path|
    decreases |path|
  {
    if path == [] then Some([])
    else
      match FindSlot(free[path[0]], arrival, tx, eff, effEnd)
      case None => None
      case Some(slot) =>
        var send := Max(slot.start, arrival);
        match SearchFrom(free, path[1..], tx, send + tx + PropagationDelay + ProcessingDelay, eff, effEnd)
        case None => None
        case Some(rest) => Some([Request(path[0], send, send + tx, arrival)] + rest)
  }

  /** A request for one hop: on the hop's queue, tx ticks long, not before the frame arrives, before the deadline, inside a free slot. */
  predicate HopOk(free: seq<seq<FreeSlot>>, queue: nat, req: Request, tx: nat, effEnd: nat)
    requires queue < |free|
  {
    req.queue == queue && req.next == req.start + tx && req.arrival <= req.start &&
    req.next <= effEnd && InsideFree(free[queue], req.start, req.next)
  }

  /** The first step of a successful search: the request for the first hop, then the search from the next hop on. */
  lemma SearchFromHead(free: seq<seq<FreeSlot>>, path: seq<nat>, tx: nat, arrival: nat, eff: nat, effEnd: nat) returns (send: nat, rest: seq<Request>)
    requires PathFits(free, path) && path != [] && SearchFrom(free, path, tx, arrival, eff, effEnd).Some?
    ensures PathFits(free, path[1..])
    ensures SearchFrom(free, path[1..], tx, send + tx + PropagationDelay + ProcessingDelay, eff, effEnd) == Some(rest)
    ensures SearchFrom(free, path, tx, arrival, eff, effEnd) == Some([Request(path[0], send, send + tx, arrival)] + rest)
    ensures HopOk(free, path[0], Request(path[0], send, send + tx, arrival), tx, effEnd)
  {
    var l := free[path[0]];
    var slot := FindSlot(l, arrival, tx, eff, effEnd).value;
    send := Max(slot.start, arrival);
    rest := SearchFrom(free, path[1..], tx, send + tx + PropagationDelay + ProcessingDelay, eff, effEnd).value;
    var j :| 0 <= j < |l| && l[j] == slot;
  }

  /** Each request of a successful search is a valid transmission on its hop. */
  lemma {:induction false} SearchFromHops(free: seq<seq<FreeSlot>>, path: seq<nat>, tx: nat, arrival: nat, eff: nat, effEnd: nat, r: seq<Request>)
    requires PathFits(free, path) && SearchFrom(free, path, tx, arrival, eff, effEnd) == Some(r)
    ensures forall k :: 0 <= k < |path| ==> HopOk(free, path[k], r[k], tx, effEnd)
    decreases |path|
  {
    if path != [] {
      var send, rest := SearchFromHead(free, path, tx, arrival, eff, effEnd);
      SearchFromHops(free, path[1..], tx, send + tx + PropagationDelay + ProcessingDelay, eff, effEnd, rest);
      assert r == [Request(path[0], send, send + tx, arrival)] + rest;
      forall k | 1 <= k < |path| ensures HopOk(free, path[k], r[k], tx, effEnd) {
        assert r[k] == rest[k - 1] && path[k] == path[1..][k - 1];
      }
    }
  }

  /** The first request starts from the release time; each next one from the previous end plus propagation and processing delay. */
  lemma {:induction false} SearchFromChain(free: seq<seq<FreeSlot>>, path: seq<nat>, tx: nat, arrival: nat, eff: nat, effEnd: nat, r: seq<Request>)
    requires PathFits(free, path) && SearchFrom(free, path, tx, arrival, eff, effEnd) == Some(r)
    ensures |path| > 0 ==> r[0].arrival == arrival
    ensures forall k :: 0 <= k < |path| - 1 ==> r[k + 1].arrival == r[k].next + PropagationDelay + ProcessingDelay
    decreases |path|
  {
    if path != [] {
      var send, rest := SearchFromHead(free, path, tx, arrival, eff, effEnd);
      SearchFromChain(free, path[1..], tx, send + tx + PropagationDelay + ProcessingDelay, eff, effEnd, rest);
      assert r == [Request(path[0], send, send + tx, arrival)] + rest;
      forall k | 0 <= k < |path| - 1 ensures r[k + 1].arrival == r[k].next + PropagationDelay + ProcessingDelay {
        assert r[k + 1] == rest[k];
        if k > 0 {
          assert r[k] == rest[k - 1];
        }
      }
    }
  }

  /** A search result with the requests of earlier hops in front. */
  function Prepend(done: seq<Request>, o: Option<seq<Request>>): Option<seq<Request>> {
    match o
    case None => None
    case Some(rest) => Some(done + rest)
  }

  lemma PrependNothing(o: Option<seq<Request>>)
    ensures Prepend([], o) == o
  {
    if o.Some? {
      assert [] + o.value == o.value;
    }
  }

  lemma PrependTwice(a: seq<Request>, b: seq<Request>, o: Option<seq<Request>>)
    ensures Prepend(a, Prepend(b, o)) == Prepend(a + b, o)
  {
    if o.Some? {
      assert a + (b + o.value) == (a + b) + o.value;
    }
  }

  /** One hop of the search from hop i on: nothing when the hop has no slot, else its request in front of the rest. */
  lemma SearchFromStep(free: seq<seq<FreeSlot>>, path: seq<nat>, i: nat, tx: nat, arrival: nat, eff: nat, effEnd: nat)
    requires PathFits(free, path) && i < |path|
    ensures PathFits(free, path[i..]) && PathFits(free, path[i + 1..])
    ensures FindSlot(free[path[i]], arrival, tx, eff, effEnd).None? ==> SearchFrom(free, path[i..], tx, arrival, eff, effEnd).None?
    ensures FindSlot(free[path[i]], arrival, tx, eff, effEnd).Some? ==>
              var send := Max(FindSlot(free[path[i]], arrival, tx, eff, effEnd).value.start, arrival);
              SearchFrom(free, path[i..], tx, arrival, eff, effEnd) ==
                Prepend([Request(path[i], send, send + tx, arrival)],
                        SearchFrom(free, path[i + 1..], tx, send + tx + PropagationDelay + ProcessingDelay, eff, effEnd))
  {
    assert path[i..][0] == path[i] && path[i..][1..] == path[i + 1..];
  }

  /**
   * The all_of loop of searchTransmissionOpportunities, for a given transmission delay and
   * effective deadline: one request per hop, or [] as soon as a hop has no slot.
   */
  method SearchPath(lists: seq<seq<FreeSlot>>, path: seq<nat>, tx: nat, release: nat, eff: nat, effEnd: nat) returns (r: seq<Request>)
    requires PathFits(lists, path)
    ensures r == match SearchFrom(lists, path, tx, release, eff, effEnd) case None => [] case Some(rs) => rs
  {
    var required: seq<Request> := [];
    var running: nat := release;
    ghost var whole := SearchFrom(lists, path, tx, release, eff, effEnd);
    var i := 0;
    assert path[i..] == path;
    PrependNothing(whole);
    while i < |path|
      invariant 0 <= i <= |path|
      invariant whole == Prepend(required, SearchFrom(lists, path[i..], tx, running, eff, effEnd))
    {
      var found := FindSlot(lists[path[i]], running, tx, eff, effEnd);
      if found.None? {
        SearchStops(lists, path, i, tx, running, eff, effEnd, required, whole);
        return [];
      }
      var send := Max(found.value.start, running);
      var required', running' := required + [Request(path[i], send, send + tx, running)], send + tx + PropagationDelay + ProcessingDelay;
      SearchAdvances(lists, path, i, tx, running, eff, effEnd, required, whole, found.value, required', running');
      required, running := required', running';
      i := i + 1;
    }
    assert path[i..] == [];
    r := required;
  }

  /** A hop without a slot ends the search with nothing. */
  lemma SearchStops(lists: seq<seq<FreeSlot>>, path: seq<nat>, i: nat, tx: nat, running: nat, eff: nat, effEnd: nat,
                    required: seq<Request>, whole: Option<seq<Request>>)
    requires PathFits(lists, path) && i < |path|
    requires FindSlot(lists[path[i]], running, tx, eff, effEnd).None?
    requires whole == Prepend(required, SearchFrom(lists, path[i..], tx, running, eff, effEnd))
    ensures whole.None?
  {
    SearchFromStep(lists, path, i, tx, running, eff, effEnd);
  }

  /** A hop with a slot appends its request and carries the search on from the next hop. */
  lemma SearchAdvances(lists: seq<seq<FreeSlot>>, path: seq<nat>, i: nat, tx: nat, running: nat, eff: nat, effEnd: nat,
                       required: seq<Request>, whole: Option<seq<Request>>, slot: FreeSlot, required': seq<Request>, running': nat)
    requires PathFits(lists, path) && i < |path|
    requires FindSlot(lists[path[i]], running, tx, eff, effEnd) == Some(slot)
    requires whole == Prepend(required, SearchFrom(lists, path[i..], tx, running, eff, effEnd))
    requires var send := Max(slot.start, running);
      required' == required + [Request(path[i], send, send + tx, running)] &&
      running' == send + tx + PropagationDelay + ProcessingDelay
    ensures PathFits(lists, path[i + 1..])
    ensures whole == Prepend(required', SearchFrom(lists, path[i + 1..], tx, running', eff, effEnd))
  {
    var p := path[i..];
    assert p[0] == path[i] && p[1..] == path[i + 1..];
    var send := Max(slot.start, running);
    var later := SearchFrom(lists, path[i + 1..], tx, running', eff, effEnd);
    assert SearchFrom(lists, p, tx, running, eff, effEnd) == Prepend([Request(path[i], send, send + tx, running)], later);
    PrependTwice(required, [Request(path[i], send, send + tx, running)], later);
  }

  /**
   * The pair of freeSlot's scan that holds [begin, end): merge the two slots, extend the first
   * or the second, or insert a new slot between them.
   */
  method FillGap(l0: seq<FreeSlot>, i: nat, begin: nat, end: nat, ghost hc: nat) returns (l: seq<FreeSlot>)
    requires FreeListValid(l0, hc) && 1 <= begin < end <= hc && i + 1 < |l0|
    requires forall t :: begin <= t < end ==> !FreeAt(l0, t)
    requires l0[i].last < begin
    requires l0[i].last == begin - 1 || l0[i + 1].start == end || (l0[i].last < begin - 1 && l0[i + 1].start > end)
    ensures Freed(l, l0, hc, begin, end) && |l| >= |l0| - 1
  {
    if l0[i].last == begin - 1 && end == l0[i + 1].start {
      MergeFreed(l0, i, begin, end, hc);
      l := l0[..i] + [FreeSlot(l0[i].start, l0[i + 1].last)] + l0[i + 2..];
    } else if l0[i].last == begin - 1 {
      assert l0[i].last + 1 < l0[i + 1].start;
      OutsideFreed(l0, i + 1, begin, end);
      ExtendFreedAfter(l0, i, begin, end, hc);
      l := l0[i := FreeSlot(l0[i].start, end - 1)];
    } else if l0[i + 1].start == end {
      ExtendFreedBefore(l0, i + 1, begin, end, hc);
      l := l0[i + 1 := FreeSlot(begin, l0[i + 1].last)];
    } else {
      InsertFreed(l0, i + 1, begin, end, hc);
      l := l0[..i + 1] + [FreeSlot(begin, end - 1)] + l0[i + 1..];
    }
  }

  /** The effective deadline of searchTransmissionOpportunities: deadline - tx - propagation delay in size_t. */
  function EffectiveDeadline(deadline: nat, tx: nat): (eff: nat)
    requires deadline <= SizeMax && tx <= SizeMax
    ensures eff <= SizeMax
  {
    WrapSub(WrapSub(deadline, tx), PropagationDelay)
  }

  /** The bound on the transmission end: effective deadline + tx in size_t. */
  function EffectiveEnd(deadline: nat, tx: nat): nat
    requires deadline <= SizeMax && tx <= SizeMax
  {
    WrapAdd(EffectiveDeadline(deadline, tx), tx)
  }

  /** Frame sizes and times are size_t values. */
  predicate InSizeT(frameSize: nat, deadline: nat) {
    frameSize <= SizeMax && deadline <= SizeMax
  }

  /** searchTransmissionOpportunities as a value: the requests, or [] when some hop has no slot. */
  function Search(free: seq<seq<FreeSlot>>, path: seq<nat>, frameSize: nat, release: nat, deadline: nat): seq<Request>
    requires PathFits(free, path) && InSizeT(frameSize, deadline)
  {
    var tx := TransmissionDelay(frameSize);
    match SearchFrom(free, path, tx, release, EffectiveDeadline(deadline, tx), EffectiveEnd(deadline, tx))
    case None => []
    case Some(rs) => rs
  }

  /**
   * Without wrap-around (deadline > tx) a search either finds nothing or one request per
   * hop; every transmission lies in a free slot of its hop, starts no earlier than the
   * frame arrives, lasts the transmission delay and ends no later than
   * deadline - propagation delay; arrivals chain hop to hop.
   */
  lemma SearchRequests(free: seq<seq<FreeSlot>>, path: seq<nat>, frameSize: nat, release: nat, deadline: nat)
    requires PathFits(free, path) && InSizeT(frameSize, deadline)
    requires TransmissionDelay(frameSize) + PropagationDelay <= deadline
    ensures var r := Search(free, path, frameSize, release, deadline);
            var tx := TransmissionDelay(frameSize);
            (r == [] || |r| == |path|) &&
            (forall k :: 0 <= k < |r| ==> HopOk(free, path[k], r[k], tx, deadline - PropagationDelay)) &&
            (r != [] ==> r[0].arrival == release) &&
            (forall k :: 0 <= k < |r| - 1 ==> r[k + 1].arrival == r[k].next + PropagationDelay + ProcessingDelay)
  {
    var tx := TransmissionDelay(frameSize);
    var eff := EffectiveDeadline(deadline, tx);
    var effEnd := EffectiveEnd(deadline, tx);
    NoWrap(deadline, tx);
    if SearchFrom(free, path, tx, release, eff, effEnd).Some? {
      var r := SearchFrom(free, path, tx, release, eff, effEnd).value;
      SearchFromHops(free, path, tx, release, eff, effEnd, r);
      SearchFromChain(free, path, tx, release, eff, effEnd, r);
    }
  }

  /** With deadline > tx the effective deadline and its end do not wrap. */
  lemma NoWrap(deadline: nat, tx: nat)
    requires tx + PropagationDelay <= deadline <= SizeMax
    ensures EffectiveDeadline(deadline, tx) == deadline - tx - PropagationDelay
    ensures EffectiveEnd(deadline, tx) == deadline - PropagationDelay
  {
  }

  /** A deadline no later than the transmission delay wraps the effective deadline and leaves no slot on any link. */
  lemma {:induction false} ShortDeadlineFindsNothing(l: seq<FreeSlot>, arrival: nat, tx: nat, deadline: nat)
    requires 1 <= deadline <= tx <= SizeMax
    ensures EffectiveDeadline(deadline, tx) > SizeMax - tx
    ensures FindSlot(l, arrival, tx, EffectiveDeadline(deadline, tx), EffectiveEnd(deadline, tx)).None?
  {
    assert EffectiveEnd(deadline, tx) == deadline - 1;
    NothingFits(DropEnded(l, arrival, tx), arrival, tx, EffectiveDeadline(deadline, tx), EffectiveEnd(deadline, tx));
  }

  lemma {:induction false} NothingFits(l: seq<FreeSlot>, arrival: nat, tx: nat, eff: nat, effEnd: nat)
    requires effEnd < tx
    ensures FirstFitting(l, arrival, tx, eff, effEnd).None?
  {
    if l != [] {
      NothingFits(l[1..], arrival, tx, eff, effEnd);
    }
  }

  // ---------------------------------------------------------------------------

  function StartNextKey(s: ReservedSlot): (int, int) {
    (s.start, s.next)
  }

  function StartKey(s: ReservedSlot): (int, int) {
    (s.start, 0)
  }

  function TimeKey(a: Arrival): (int, int) {
    (a.time, 0)
  }

  /** Sorting by (start, next) is sorting by the slot ordering `<=>`. */
  lemma SortedByStartNextIsCompareOrder(r: seq<ReservedSlot>)
    ensures SortedBy(r, StartNextKey) <==> forall j, k :: 0 <= j < k < |r| ==> Compare(r[j], r[k]) != Greater
  {
  }

  /** The carving step of reserveSlot on one free list: slot k loses [start, next). */
  method CarveSlot(l0: seq<FreeSlot>, k: nat, start: nat, next: nat) returns (l: seq<FreeSlot>)
    requires k < |l0| && Contains(l0[k], start, next)
    ensures l == CarveAt(l0, k, start, next)
  {
    var slot := l0[k];
    if slot.start == start && slot.last == LastTickBefore(next) {
      l := l0[..k] + l0[k + 1..];
    } else if slot.start == start {
      l := l0[k := FreeSlot(next, slot.last)];
    } else if slot.last + 1 == next {
      l := l0[k := FreeSlot(slot.start, start - 1)];
    } else {
      var newSlot := FreeSlot(slot.start, start - 1);
      l := l0[k := FreeSlot(next, slot.last)];
      assert l[k..] == [FreeSlot(next, slot.last)] + l0[k + 1..];
      l := l[..k] + [newSlot] + l[k..];
      assert l == l0[..k] + [newSlot, FreeSlot(next, slot.last)] + l0[k + 1..];
    }
  }
  class NetworkUtilizationList {
    var free: seq<seq<FreeSlot>>
    var reserved: seq<seq<ReservedSlot>>
    var arrivals: seq<seq<Arrival>>
    const hyperCycle: nat
    const subCycle: nat
    const links: nat

    /** One list of each kind per egress queue. */
    ghost predicate Valid()
      reads this
    {
      |free| == links && |reserved| == links && |arrivals| == links
    }

    /** Every queue's free and reserved slots tile the hyper-cycle. */
    ghost predicate Consistent()
      reads this
    {
      Valid() && forall q :: 0 <= q < links ==> Tiles(free[q], reserved[q], hyperCycle)
    }

    function State(): ListState
      reads this
    {
      ListState(free, reserved, arrivals)
    }

    constructor (links: nat, hyperCycle: nat, subCycle: nat)
      ensures this.links == links && this.hyperCycle == hyperCycle && this.subCycle == subCycle
      ensures Valid()
      ensures forall q :: 0 <= q < links ==>
                free[q] == [FreeSlot(0, LastTickBefore(hyperCycle))] && reserved[q] == [] && arrivals[q] == []
      ensures hyperCycle >= 1 ==> Consistent()
    {
      this.hyperCycle := hyperCycle;
      this.subCycle := subCycle;
      this.links := links;
      new;
      Clear();
    }

    /** clear: one free slot [0, hyper_cycle - 1] per link (wrapping to SIZE_MAX for a hyper-cycle of 0), nothing reserved. */
    method Clear()
      modifies this
      ensures Valid()
      ensures forall q :: 0 <= q < links ==>
                free[q] == [FreeSlot(0, LastTickBefore(hyperCycle))] && reserved[q] == [] && arrivals[q] == []
      ensures hyperCycle >= 1 ==> Consistent()
    {
      reserved := [];
      arrivals := [];
      free := [];
      var i := 0;
      while i < links
        invariant 0 <= i <= links && |free| == i
        invariant forall q :: 0 <= q < i ==> free[q] == [FreeSlot(0, LastTickBefore(hyperCycle))]
      {
        free := free + [[FreeSlot(0, LastTickBefore(hyperCycle))]];
        i := i + 1;
      }
      reserved := seq(links, _ => []);
      arrivals := seq(links, _ => []);
      if hyperCycle >= 1 {
        forall q | 0 <= q < links ensures Tiles(free[q], reserved[q], hyperCycle) {
          forall t | 0 <= t < hyperCycle ensures FreeAt(free[q], t) {
            assert InFree(free[q][0], t);
          }
        }
      }
    }

    /**
     * reserveSlot: records the arrival and the reservation first, then carves the request
     * out of the first free slot that contains it; false when there is none.
     */
    method ReserveSlot(req: Request, flow: nat, config: nat) returns (ok: bool)
      requires Valid() && req.queue < links
      modifies this
      ensures Valid()
      ensures ok == ReserveSucceeds(old(State()), req)
      ensures State() == ReserveState(old(State()), req, flow, config)
    {
      var q := req.queue;
      arrivals := arrivals[q := arrivals[q] + [Arrival(flow, req.arrival)]];
      reserved := reserved[q := reserved[q] + [ReservedSlot(req.start, req.next, flow, config)]];
      var found := FindContaining(free[q], req.start, req.next);
      if found.None? {
        return false;
      }
      var l := CarveSlot(free[q], found.value, req.start, req.next);
      free := free[q := l];
      return true;
    }

    /**
     * freeSlot: returns [begin, end) to queue q's free list, merging it with a free
     * neighbour on either side. An empty free list (undefined in the source) receives the
     * interval as its only slot.
     */
    method FreeReservedSlot(q: nat, slot: ReservedSlot)
      requires Valid() && q < links
      requires FreeListValid(free[q], hyperCycle)
      requires slot.start < slot.next <= hyperCycle
      requires forall t :: slot.start <= t < slot.next ==> !FreeAt(free[q], t)
      modifies this
      ensures Valid()
      ensures reserved == old(reserved) && arrivals == old(arrivals)
      ensures free == old(free)[q := free[q]]
      ensures FreeListValid(free[q], hyperCycle)
      ensures forall t :: FreeAt(free[q], t) <==> FreeAt(old(free[q]), t) || slot.start <= t < slot.next
    {
      var l := InsertFreedInterval(free[q], hyperCycle, slot.start, slot.next);
      free := free[q := l];
    }

    /**
     * removeConfigs: on every queue, drops the reservations and arrival records of the listed
     * flows (keeping the rest in order) and gives the dropped intervals back to the free list
     * in ascending start order.
     */
    method RemoveConfigs(flows: seq<nat>)
      requires Consistent()
      modifies this
      ensures Consistent()
      ensures forall q :: 0 <= q < links ==>
                reserved[q] == KeptSlots(old(reserved[q]), flows) && arrivals[q] == KeptArrivals(old(arrivals[q]), flows)
      ensures forall q :: 0 <= q < links ==> GivenBack(free[q], old(free[q]), RemovedSlots(old(reserved[q]), flows))
    {
      var i := 0;
      while i < |reserved|
        invariant 0 <= i <= links && Consistent()
        invariant forall q :: 0 <= q < i ==>
                    reserved[q] == KeptSlots(old(reserved[q]), flows) && arrivals[q] == KeptArrivals(old(arrivals[q]), flows)
        invariant forall q :: 0 <= q < i ==> GivenBack(free[q], old(free[q]), RemovedSlots(old(reserved[q]), flows))
        invariant forall q :: i <= q < links ==>
                    reserved[q] == old(reserved[q]) && arrivals[q] == old(arrivals[q]) && free[q] == old(free[q])
      {
        RemoveQueue(i, flows);
        i := i + 1;
      }
    }

    /**
     * removeConfigs on queue q: keeps the slots and arrivals of the other flows and frees every
     * removed slot, in ascending start order.
     */
    method RemoveQueue(q: nat, flows: seq<nat>)
      requires Consistent() && q < links
      modifies this
      ensures Consistent()
      ensures reserved == old(reserved)[q := KeptSlots(old(reserved[q]), flows)]
      ensures arrivals == old(arrivals)[q := KeptArrivals(old(arrivals[q]), flows)]
      ensures free == old(free)[q := free[q]]
      ensures GivenBack(free[q], old(free[q]), RemovedSlots(old(reserved[q]), flows))
    {
      var toBeRemoved := RemovedSlots(reserved[q], flows);
      var sorted := SortByKey(toBeRemoved, StartKey);
      var l := FreeAllSorted(free[q], reserved[q], hyperCycle, sorted, flows);
      reserved := reserved[q := KeptSlots(reserved[q], flows)];
      free := free[q := l];
      arrivals := arrivals[q := KeptArrivals(arrivals[q], flows)];
    }

    /** sortReservedEgressSlots: every reserved list ordered by (start, next), as a permutation of itself. */
    method SortReservedEgressSlots()
      requires Valid()
      modifies this
      ensures Valid() && free == old(free) && arrivals == old(arrivals)
      ensures forall q :: 0 <= q < links ==>
                SortedBy(reserved[q], StartNextKey) && multiset(reserved[q]) == multiset(old(reserved[q]))
      ensures old(Consistent()) ==> Consistent()
    {
      var i := 0;
      while i < |reserved|
        invariant 0 <= i <= links && Valid() && free == old(free) && arrivals == old(arrivals)
        invariant forall q :: 0 <= q < i ==>
                    SortedBy(reserved[q], StartNextKey) && multiset(reserved[q]) == multiset(old(reserved[q]))
        invariant forall q :: i <= q < links ==> reserved[q] == old(reserved[q])
      {
        var sorted := SortByKey(reserved[i], StartNextKey);
        reserved := reserved[i := sorted];
        i := i + 1;
      }
      if old(Consistent()) {
        forall q | 0 <= q < links ensures Tiles(free[q], reserved[q], hyperCycle) {
          SubMultisetValid(old(reserved[q]), reserved[q], hyperCycle);
          forall t ensures ReservedAt(reserved[q], t) <==> ReservedAt(old(reserved[q]), t) {
            assert forall s :: s in reserved[q] <==> s in multiset(old(reserved[q]));
            ReservedAtSameMembers(reserved[q], old(reserved[q]), t);
            ReservedAtSameMembers(old(reserved[q]), reserved[q], t);
          }
        }
      }
    }

    /**
     * searchTransmissionOpportunities: hop by hop, the first free slot that can carry the
     * frame from its running arrival time; [] as soon as one hop has none. Nothing changes.
     */
    method SearchTransmissionOpportunities(path: seq<nat>, frameSize: nat, release: nat, deadline: nat) returns (r: seq<Request>)
      requires Valid() && PathFits(free, path) && InSizeT(frameSize, deadline)
      ensures r == Search(free, path, frameSize, release, deadline)
    {
      var tx := TransmissionDelay(frameSize);
      r := SearchPath(free, path, tx, release, EffectiveDeadline(deadline, tx), EffectiveEnd(deadline, tx));
    }

    /** compute_frames_per_hc: frames of a flow with this period in one hyper-cycle, rounded down. */
    function FramesPerHyperCycle(period: nat): (n: nat)
      requires period > 0
      ensures n * period <= hyperCycle < (n + 1) * period
    {
      hyperCycle / period
    }
  }

  /** The loop of removeConfigs over one queue: each sorted removed slot goes through freeSlot. */
  method FreeAllSorted(f0: seq<FreeSlot>, ghost r0: seq<ReservedSlot>, ghost hc: nat, sorted: seq<ReservedSlot>, ghost flows: seq<nat>)
    returns (l: seq<FreeSlot>)
    requires Tiles(f0, r0, hc)
    requires multiset(sorted) == multiset(RemovedSlots(r0, flows))
    ensures Tiles(l, KeptSlots(r0, flows), hc)
    ensures GivenBack(l, f0, RemovedSlots(r0, flows))
  {
    PartitionIsPermutation(r0, flows);
    SubMultisetValid(r0, sorted, hc);
    l := f0;
    var j := 0;
    while j < |sorted|
      invariant 0 <= j <= |sorted|
      invariant FreeListValid(l, hc)
      invariant forall t :: FreeAt(l, t) <==> FreeAt(f0, t) || ReservedAt(sorted[..j], t)
    {
      l := FreeNext(f0, r0, hc, sorted, j, l);
      j := j + 1;
    }
    FreedAllRemoved(f0, r0, hc, sorted, l, flows);
  }

  /** One turn of removeConfigs' loop: the j-th sorted removed slot goes through freeSlot. */
  method FreeNext(ghost f0: seq<FreeSlot>, ghost r0: seq<ReservedSlot>, ghost hc: nat, sorted: seq<ReservedSlot>, j: nat, l0: seq<FreeSlot>)
    returns (l: seq<FreeSlot>)
    requires Tiles(f0, r0, hc) && ReservedListValid(sorted, hc) && multiset(sorted) <= multiset(r0) && j < |sorted|
    requires FreeListValid(l0, hc)
    requires forall t :: FreeAt(l0, t) <==> FreeAt(f0, t) || ReservedAt(sorted[..j], t)
    ensures FreeListValid(l, hc)
    ensures forall t :: FreeAt(l, t) <==> FreeAt(f0, t) || ReservedAt(sorted[..j + 1], t)
  {
    NextRemovedNotFree(f0, r0, hc, sorted, j, l0);
    l := InsertFreedInterval(l0, hc, sorted[j].start, sorted[j].next);
    FreedPrefixStep(f0, sorted, j, l0, l);
  }

  /** Free list l is l0 with exactly the ticks of the removed reservations added. */
  ghost predicate GivenBack(l: seq<FreeSlot>, l0: seq<FreeSlot>, removed: seq<ReservedSlot>) {
    forall t :: FreeAt(l, t) <==> FreeAt(l0, t) || ReservedAt(removed, t)
  }

  /** Giving back exactly the removed reservations restores the tiling with the kept ones. */
  lemma RemovedTiles(f0: seq<FreeSlot>, r0: seq<ReservedSlot>, hc: nat, f: seq<FreeSlot>, flows: seq<nat>)
    requires Tiles(f0, r0, hc) && FreeListValid(f, hc)
    requires GivenBack(f, f0, RemovedSlots(r0, flows))
    ensures Tiles(f, KeptSlots(r0, flows), hc)
  {
    PartitionIsPermutation(r0, flows);
    SubMultisetValid(r0, KeptSlots(r0, flows), hc);
    forall t | 0 <= t < hc ensures FreeAt(f, t) || ReservedAt(KeptSlots(r0, flows), t) {
      KeptOrRemoved(r0, flows, t);
    }
    forall t ensures !(FreeAt(f, t) && ReservedAt(KeptSlots(r0, flows), t)) {
      KeptApartFromRemoved(r0, hc, flows, t);
      KeptWasReserved(r0, flows, t);
    }
  }

  /** A tick reserved before removeConfigs is reserved by a kept or by a removed slot. */
  lemma KeptOrRemoved(r0: seq<ReservedSlot>, flows: seq<nat>, t: int)
    ensures ReservedAt(r0, t) ==> ReservedAt(KeptSlots(r0, flows), t) || ReservedAt(RemovedSlots(r0, flows), t)
  {
    PartitionMembers(r0, flows);
    if ReservedAt(r0, t) {
      var j :| 0 <= j < |r0| && InReserved(r0[j], t);
      if r0[j].flow in flows {
        ReservedAtSameMembers([r0[j]], RemovedSlots(r0, flows), t);
        assert InReserved([r0[j]][0], t);
      } else {
        ReservedAtSameMembers([r0[j]], KeptSlots(r0, flows), t);
        assert InReserved([r0[j]][0], t);
      }
    }
  }

  lemma KeptWasReserved(r0: seq<ReservedSlot>, flows: seq<nat>, t: int)
    ensures ReservedAt(KeptSlots(r0, flows), t) ==> ReservedAt(r0, t)
  {
    PartitionMembers(r0, flows);
    ReservedAtSameMembers(KeptSlots(r0, flows), r0, t);
  }

  /** A kept and a removed reservation never share a tick. */
  lemma KeptApartFromRemoved(r0: seq<ReservedSlot>, hc: nat, flows: seq<nat>, t: int)
    requires ReservedListValid(r0, hc)
    ensures !(ReservedAt(KeptSlots(r0, flows), t) && ReservedAt(RemovedSlots(r0, flows), t))
  {
    var kept, removed := KeptSlots(r0, flows), RemovedSlots(r0, flows);
    PartitionMembers(r0, flows);
    if ReservedAt(kept, t) {
      var j :| 0 <= j < |kept| && InReserved(kept[j], t);
      assert kept[j] in r0;
      var p :| 0 <= p < |r0| && r0[p] == kept[j];
      forall m | 0 <= m < |removed| ensures !InReserved(removed[m], t) {
        assert removed[m] in r0;
        var p' :| 0 <= p' < |r0| && r0[p'] == removed[m];
        assert r0[p].flow !in flows && r0[p'].flow in flows;
        assert Apart(r0[p], r0[p']);
      }
    }
  }

  /** One more freed slot extends the freed prefix of the sorted removed slots. */
  lemma FreedPrefixStep(f0: seq<FreeSlot>, sorted: seq<ReservedSlot>, j: nat, before: seq<FreeSlot>, after: seq<FreeSlot>)
    requires j < |sorted|
    requires forall t :: FreeAt(before, t) <==> FreeAt(f0, t) || ReservedAt(sorted[..j], t)
    requires forall t :: FreeAt(after, t) <==> FreeAt(before, t) || sorted[j].start <= t < sorted[j].next
    ensures forall t :: FreeAt(after, t) <==> FreeAt(f0, t) || ReservedAt(sorted[..j + 1], t)
  {
    assert sorted[..j + 1] == sorted[..j] + [sorted[j]];
    forall t ensures FreeAt(after, t) <==> FreeAt(f0, t) || ReservedAt(sorted[..j + 1], t) {
      ReservedAtSnoc(sorted[..j], sorted[j], t);
    }
  }

  /** Once every sorted removed slot is freed, the queue is tiled by the free list and the kept slots. */
  lemma FreedAllRemoved(f0: seq<FreeSlot>, r0: seq<ReservedSlot>, hc: nat, sorted: seq<ReservedSlot>, f: seq<FreeSlot>, flows: seq<nat>)
    requires Tiles(f0, r0, hc) && FreeListValid(f, hc)
    requires multiset(sorted) == multiset(RemovedSlots(r0, flows))
    requires forall t :: FreeAt(f, t) <==> FreeAt(f0, t) || ReservedAt(sorted[..|sorted|], t)
    ensures Tiles(f, KeptSlots(r0, flows), hc)
    ensures GivenBack(f, f0, RemovedSlots(r0, flows))
  {
    assert sorted[..|sorted|] == sorted;
    forall t ensures FreeAt(f, t) <==> FreeAt(f0, t) || ReservedAt(RemovedSlots(r0, flows), t) {
      SameMultisetSameTicks(sorted, RemovedSlots(r0, flows), t);
    }
    RemovedTiles(f0, r0, hc, f, flows);
  }

  lemma ReservedAtSnoc(a: seq<ReservedSlot>, s: ReservedSlot, t: int)
    ensures ReservedAt(a + [s], t) <==> ReservedAt(a, t) || InReserved(s, t)
  {
    var b := a + [s];
    if ReservedAt(b, t) {
      var m :| 0 <= m < |b| && InReserved(b[m], t);
      if m < |a| {
        assert b[m] == a[m];
      }
    }
    if ReservedAt(a, t) {
      var m :| 0 <= m < |a| && InReserved(a[m], t);
      assert b[m] == a[m];
    }
    assert b[|a|] == s;
  }

  /** Reordering a reserved list does not change which ticks it reserves. */
  lemma SameMultisetSameTicks(a: seq<ReservedSlot>, b: seq<ReservedSlot>, t: int)
    requires multiset(a) == multiset(b)
    ensures ReservedAt(a, t) <==> ReservedAt(b, t)
  {
    forall x | x in a ensures x in b {
      assert x in multiset(a);
    }
    forall x | x in b ensures x in a {
      assert x in multiset(b);
    }
    ReservedAtSameMembers(a, b, t);
    ReservedAtSameMembers(b, a, t);
  }

  /** The next slot removeConfigs frees is still reserved on the queue, so none of its ticks is free yet. */
  lemma NextRemovedNotFree(f0: seq<FreeSlot>, r0: seq<ReservedSlot>, hc: nat, sorted: seq<ReservedSlot>, j: nat, f: seq<FreeSlot>)
    requires Tiles(f0, r0, hc) && ReservedListValid(sorted, hc) && multiset(sorted) <= multiset(r0) && j < |sorted|
    requires forall t :: FreeAt(f, t) <==> FreeAt(f0, t) || ReservedAt(sorted[..j], t)
    ensures sorted[j].start < sorted[j].next <= hc
    ensures forall t :: sorted[j].start <= t < sorted[j].next ==> !FreeAt(f, t)
  {
    var s := sorted[j];
    assert s in multiset(sorted);
    assert s in multiset(r0);
    var p :| 0 <= p < |r0| && r0[p] == s;
    forall t | s.start <= t < s.next ensures !FreeAt(f, t) {
      assert InReserved(r0[p], t);
      forall m | 0 <= m < j ensures !InReserved(sorted[..j][m], t) {
        assert sorted[..j][m] == sorted[m];
        assert Apart(sorted[m], sorted[j]);
      }
    }
  }

  /**
   * The body of freeSlot on one free list: inserts [begin, end) as its own slot, or merges it
   * with the slot that ends at begin - 1 and/or the slot that starts at end.
   */
  method InsertFreedInterval(l0: seq<FreeSlot>, ghost hc: nat, begin: nat, end: nat) returns (l: seq<FreeSlot>)
    requires FreeListValid(l0, hc) && begin < end <= hc
    requires forall t :: begin <= t < end ==> !FreeAt(l0, t)
    ensures Freed(l, l0, hc, begin, end)
  {
    l := l0;
    if |l| == 0 {
      l := [FreeSlot(begin, end - 1)];
      ValidSingle(l[0], hc);
      forall t ensures FreeAt(l, t) <==> FreeAt(l0, t) || begin <= t < end {
        FreeAtSingle(l[0], t);
      }
      assert Freed(l, l0, hc, begin, end);
    } else if l[0].start > end {
      InsertFreed(l, 0, begin, end, hc);
      assert l[..0] + [FreeSlot(begin, end - 1)] + l[0..] == [FreeSlot(begin, end - 1)] + l;
      l := [FreeSlot(begin, end - 1)] + l;
    } else if l[0].start == end {
      var merged := FreeSlot(begin, l0[0].last);
      ExtendFreedBefore(l0, 0, begin, end, hc);
      l := l0[0 := merged];
    } else {
      l := FreedBehindFront(l0, hc, begin, end);
    }
  }

  /** freeSlot's insertion when [begin, end) lies behind the first free slot. */
  method FreedBehindFront(l0: seq<FreeSlot>, ghost hc: nat, begin: nat, end: nat) returns (l: seq<FreeSlot>)
    requires FreeListValid(l0, hc) && begin < end <= hc
    requires forall t :: begin <= t < end ==> !FreeAt(l0, t)
    requires |l0| > 0 && l0[0].start < end
    ensures Freed(l, l0, hc, begin, end)
  {
    OutsideFreed(l0, 0, begin, end);
    assert begin >= 1;
    var last := |l0| - 1;
    var slot := FreeSlot(begin, end - 1);
    if l0[last].last < begin - 1 {
      InsertFreed(l0, |l0|, begin, end, hc);
      assert l0[..|l0|] + [slot] + l0[|l0|..] == l0 + [slot];
      l := l0 + [slot];
    } else if l0[last].last == begin - 1 {
      var merged := FreeSlot(l0[last].start, end - 1);
      ExtendFreedAfter(l0, last, begin, end, hc);
      l := ScanFreed(l0, l0[last := merged], true, hc, begin, end);
    } else {
      OutsideFreed(l0, last, begin, end);
      l := ScanFreed(l0, l0, false, hc, begin, end);
    }
  }

  /**
   * freeSlot's scan over neighbouring pairs, once the first slot is known to end before
   * begin: merges [begin, end) into the first gap that holds it. When the last slot was
   * already extended (adjusted), no pair matches and the list stays as it is.
   */
  method ScanFreed(ghost l0: seq<FreeSlot>, l1: seq<FreeSlot>, adjusted: bool, ghost hc: nat, begin: nat, end: nat) returns (l: seq<FreeSlot>)
    requires FreeListValid(l0, hc) && 1 <= begin < end <= hc
    requires forall t :: begin <= t < end ==> !FreeAt(l0, t)
    requires adjusted ==> Freed(l1, l0, hc, begin, end) && |l1| > 0 && l1[|l1| - 1].start < begin && l1[|l1| - 1].last == end - 1
    requires !adjusted ==> l1 == l0 && |l1| > 1 && l1[0].last < begin && l1[|l1| - 1].start >= end
    ensures Freed(l, l0, hc, begin, end)
  {
    l := l1;
    var i := 0;
    var done := false;
    while i + 1 < |l| && !done
      decreases (if done then 0 else 1), |l| - i
      invariant 0 <= i < |l|
      invariant (done || adjusted) ==> Freed(l, l0, hc, begin, end)
      invariant adjusted ==> !done && l[|l| - 1].start < begin && l[|l| - 1].last == end - 1
      invariant !adjusted && !done ==> l == l0 && l[i].last < begin && i < |l| - 1 && l[|l| - 1].start >= end
    {
      if adjusted && i + 1 < |l| - 1 {
        assert l[i + 1].last + 1 < l[|l| - 1].start;
      }
      if l[i + 1].last < begin - 1 {
        i := i + 1;
      } else if l[i].last == begin - 1 || l[i + 1].start == end || (l[i].last < begin - 1 && l[i + 1].start > end) {
        l := FillGap(l, i, begin, end, hc);
        done := true;
      } else {
        if !adjusted {
          OutsideFreed(l, i + 1, begin, end);
        }
        i := i + 1;
      }
    }
  }

  /** A free slot of a list disjoint from [begin, end) lies entirely on one side of it. */
  lemma OutsideFreed(l: seq<FreeSlot>, k: nat, begin: nat, end: nat)
    requires k < |l| && l[k].start <= l[k].last && begin < end
    requires forall t :: begin <= t < end ==> !FreeAt(l, t)
    ensures l[k].last < begin || l[k].start >= end
  {
    var t := Max(begin, l[k].start);
    assert InFree(l[k], t) ==> FreeAt(l, t);
  }
}
