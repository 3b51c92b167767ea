/**
 * The helpers of include/util/UtilFunctions.h that read a utilization list: reserved ticks per
 * egress queue (calculateLinkUtilization), the largest backlog of frames waiting at a switch
 * port (calculate_max_queue_size) and the scheduling-table sizes.
 */
module UtilStatistics {
  import opened Slots
  import opened Sorting
  import opened UtilizationList
  import opened Graph

  // ---------------------------------------------------------------------------
  // calculateLinkUtilization

  /** The reserved ticks of one queue: next_slot_start - start_time (a size_t difference) summed over its slots. */
  function ReservedTicks(r: seq<ReservedSlot>): nat
    requires SizeTSlots(r)
  {
    if r == [] then 0 else WrapSub(r[0].next, r[0].start) + ReservedTicks(r[1..])
  }

  predicate QueuesListed(queues: seq<EgressQueue>, reserved: seq<seq<ReservedSlot>>) {
    forall i :: 0 <= i < |queues| ==> queues[i].id < |reserved| && SizeTSlots(reserved[queues[i].id])
  }

  /** Some queue of the list has this id. */
  predicate Listed(queues: seq<EgressQueue>, id: nat) {
    exists i :: 0 <= i < |queues| && queues[i].id == id
  }

  lemma ListedSplit(queues: seq<EgressQueue>)
    requires queues != []
    ensures forall id :: Listed(queues, id) <==> Listed(queues[..|queues| - 1], id) || queues[|queues| - 1].id == id
  {
    var init := queues[..|queues| - 1];
    forall id | Listed(queues, id) ensures Listed(init, id) || queues[|queues| - 1].id == id {
      var i :| 0 <= i < |queues| && queues[i].id == id;
      if i < |init| {
        assert init[i] == queues[i];
      }
    }
    forall id | Listed(init, id) ensures Listed(queues, id) {
      var i :| 0 <= i < |init| && init[i].id == id;
      assert queues[i] == init[i];
    }
  }

  /** calculateLinkUtilization: every egress queue of the graph mapped to its reserved ticks. */
  function LinkUtilization(queues: seq<EgressQueue>, reserved: seq<seq<ReservedSlot>>): (m: map<nat, nat>)
    requires QueuesListed(queues, reserved)
    ensures forall id :: id in m <==> Listed(queues, id)
    ensures forall id :: id in m ==> id < |reserved| && SizeTSlots(reserved[id]) && m[id] == ReservedTicks(reserved[id])
  {
    if queues == [] then map[]
    else
      var last := queues[|queues| - 1];
      var init := queues[..|queues| - 1];
      assert QueuesListed(init, reserved) by {
        forall i | 0 <= i < |init| ensures init[i].id < |reserved| && SizeTSlots(reserved[init[i].id]) {
          assert init[i] == queues[i];
        }
      }
      ListedSplit(queues);
      LinkUtilization(init, reserved)[last.id := ReservedTicks(reserved[last.id])]
  }

  predicate Between(a: int, b: int, t: int) {
    a <= t < b
  }

  /** The ticks in [a, b). */
  ghost function Range(a: int, b: int): set<int> {
    set t | a <= t < b && Between(a, b, t)
  }

  lemma {:induction false} RangeSize(a: int, b: int)
    requires a <= b
    ensures |Range(a, b)| == b - a
    decreases b - a
  {
    if a < b {
      RangeSize(a, b - 1);
      assert Range(a, b) == Range(a, b - 1) + {b - 1};
    } else {
      assert Range(a, b) == {};
    }
  }

  /** The ticks of [0, hc) that list r reserves. */
  ghost function ReservedSet(r: seq<ReservedSlot>, hc: nat): set<int> {
    set t | 0 <= t < hc && ReservedAt(r, t)
  }

  /**
   * For a valid reserved list the utilization is the number of reserved ticks: the slots are
   * disjoint, so no tick is counted twice.
   */
  lemma {:induction false} ReservedTicksCountsTicks(r: seq<ReservedSlot>, hc: nat)
    requires ReservedListValid(r, hc) && hc <= SizeMax
    ensures SizeTSlots(r) && ReservedTicks(r) == |ReservedSet(r, hc)|
  {
    if r == [] {
      assert ReservedSet(r, hc) == {};
    } else {
      ReservedSetSplit(r, hc);
      ReservedTicksCountsTicks(r[1..], hc);
      RangeSize(r[0].start, r[0].next);
    }
  }

  /** The reserved ticks of a valid list are those of its first slot and, apart from them, those of the rest. */
  lemma ReservedSetSplit(r: seq<ReservedSlot>, hc: nat)
    requires ReservedListValid(r, hc) && r != []
    ensures ReservedListValid(r[1..], hc)
    ensures ReservedSet(r, hc) == Range(r[0].start, r[0].next) + ReservedSet(r[1..], hc)
    ensures Range(r[0].start, r[0].next) * ReservedSet(r[1..], hc) == {}
  {
    var rest := r[1..];
    assert ReservedListValid(rest, hc) by {
      forall j, k | 0 <= j < |rest| && 0 <= k < |rest| && j != k ensures Apart(rest[j], rest[k]) {
        assert rest[j] == r[j + 1] && rest[k] == r[k + 1];
      }
    }
    var head := Range(r[0].start, r[0].next);
    forall t ensures t in ReservedSet(r, hc) <==> t in head || t in ReservedSet(rest, hc) {
      if ReservedAt(r, t) {
        var k :| 0 <= k < |r| && InReserved(r[k], t);
        if k > 0 {
          assert rest[k - 1] == r[k];
        }
      }
      if ReservedAt(rest, t) {
        var k :| 0 <= k < |rest| && InReserved(rest[k], t);
        assert r[k + 1] == rest[k];
      }
      assert InReserved(r[0], t) ==> ReservedAt(r, t);
    }
    forall t | t in head ensures t !in ReservedSet(rest, hc) {
      forall m | 0 <= m < |rest| ensures !InReserved(rest[m], t) {
        assert rest[m] == r[m + 1];
        assert Apart(r[0], r[m + 1]);
      }
    }
  }

  // ---------------------------------------------------------------------------
  // calculate_max_queue_size

  /** The arrivals at or before tick t, whatever their order. */
  function CountArrived(arr: seq<Arrival>, t: nat): (n: nat)
    ensures n <= |arr|
  {
    if arr == [] then 0 else (if arr[0].time <= t then 1 else 0) + CountArrived(arr[1..], t)
  }

  lemma {:induction false} CountArrivedAppend(a: seq<Arrival>, b: seq<Arrival>, t: nat)
    ensures CountArrived(a + b, t) == CountArrived(a, t) + CountArrived(b, t)
  {
    if a == [] {
      assert a + b == b;
    } else {
      assert (a + b)[1..] == a[1..] + b;
      CountArrivedAppend(a[1..], b, t);
    }
  }

  /** The count depends only on which arrivals there are, so sorting them first changes nothing. */
  lemma {:induction false} CountArrivedPermutation(a: seq<Arrival>, b: seq<Arrival>, t: nat)
    requires multiset(a) == multiset(b)
    ensures CountArrived(a, t) == CountArrived(b, t)
    decreases |a|
  {
    if a == [] {
      assert |b| == |multiset(b)| == 0;
    } else {
      var j := MatchFirst(a, b);
      var rest := b[..j] + b[j + 1..];
      CountArrivedPermutation(a[1..], rest, t);
      CountWithout(a, 0, t);
      CountWithout(b, j, t);
    }
  }

  /** In a permutation b of a non-empty a, some b[j] is a[0], and the rest of both still match. */
  lemma MatchFirst(a: seq<Arrival>, b: seq<Arrival>) returns (j: nat)
    requires multiset(a) == multiset(b) && a != []
    ensures j < |b| && b[j] == a[0] && multiset(a[1..]) == multiset(b[..j] + b[j + 1..])
  {
    assert a[0] in multiset(b);
    j :| 0 <= j < |b| && b[j] == a[0];
    var pre, post := b[..j], b[j + 1..];
    assert b == pre + [b[j]] + post;
    assert multiset(b) == multiset(pre) + multiset{b[j]} + multiset(post);
    assert a == [a[0]] + a[1..];
    assert multiset(a) == multiset{a[0]} + multiset(a[1..]);
    assert multiset(pre + post) == multiset(pre) + multiset(post);
    assert multiset(a[1..]) == multiset(a) - multiset{a[0]};
    assert multiset(pre + post) == multiset(b) - multiset{b[j]};
  }

  lemma CountWithout(s: seq<Arrival>, j: nat, t: nat)
    requires j < |s|
    ensures CountArrived(s, t) == CountArrived(s[..j] + s[j + 1..], t) + CountArrived([s[j]], t)
  {
    var pre, post := s[..j], s[j + 1..];
    CountArrivedAppend(pre, post, t);
    CountArrivedAppend(pre, [s[j]] + post, t);
    CountArrivedAppend([s[j]], post, t);
    assert pre + ([s[j]] + post) == s;
  }

  lemma {:induction false} CountNone(arr: seq<Arrival>, t: nat)
    requires forall i :: 0 <= i < |arr| ==> arr[i].time > t
    ensures CountArrived(arr, t) == 0
  {
    if arr != [] {
      CountNone(arr[1..], t);
    }
  }

  /** In a list sorted by time, the arrivals up to t are exactly the first p, where the scan stops. */
  lemma {:induction false} CountSorted(arr: seq<Arrival>, t: nat, p: nat)
    requires SortedBy(arr, TimeKey) && p <= |arr|
    requires forall i :: 0 <= i < p ==> arr[i].time <= t
    requires p < |arr| ==> arr[p].time > t
    ensures CountArrived(arr, t) == p
  {
    if p == 0 {
      forall i | 0 <= i < |arr| ensures arr[i].time > t {
        assert i == 0 || KeyLe(TimeKey(arr[0]), TimeKey(arr[i]));
      }
      CountNone(arr, t);
    } else {
      assert SortedBy(arr[1..], TimeKey) by {
        forall j, k | 0 <= j < k < |arr| - 1 ensures KeyLe(TimeKey(arr[1..][j]), TimeKey(arr[1..][k])) {
          assert arr[1..][j] == arr[j + 1] && arr[1..][k] == arr[k + 1];
        }
      }
      forall i | 0 <= i < p - 1 ensures arr[1..][i].time <= t {
        assert arr[1..][i] == arr[i + 1];
      }
      assert p - 1 < |arr| - 1 ==> arr[1..][p - 1] == arr[p];
      CountSorted(arr[1..], t, p - 1);
    }
  }

  /**
   * The backlog of one queue whose slots are in start order: at the k-th transmission, the frames
   * received so far minus the k frames already sent (a size_t difference); the largest such value.
   */
  function QueueBacklog(slots: seq<ReservedSlot>, arr: seq<Arrival>): nat
    requires |slots| <= SizeMax && |arr| <= SizeMax
  {
    if slots == [] then 0
    else Max(QueueBacklog(slots[..|slots| - 1], arr), WrapSub(CountArrived(arr, slots[|slots| - 1].start), |slots| - 1))
  }

  /** Every frame a slot sends has arrived: the k-th slot (from 0) starts after at least k arrivals. */
  predicate NoUnderflow(slots: seq<ReservedSlot>, arr: seq<Arrival>) {
    forall k :: 0 <= k < |slots| ==> k <= CountArrived(arr, slots[k].start)
  }

  /**
   * Without underflow the backlog is the largest (arrivals up to the k-th slot) - k, taken at some
   * slot, and it never exceeds the number of arrivals.
   */
  lemma {:induction false} BacklogIsLargestDifference(slots: seq<ReservedSlot>, arr: seq<Arrival>)
    requires |slots| <= SizeMax && |arr| <= SizeMax && NoUnderflow(slots, arr)
    ensures forall k :: 0 <= k < |slots| ==> CountArrived(arr, slots[k].start) - k <= QueueBacklog(slots, arr)
    ensures slots == [] ==> QueueBacklog(slots, arr) == 0
    ensures slots != [] ==> exists k :: 0 <= k < |slots| && QueueBacklog(slots, arr) == CountArrived(arr, slots[k].start) - k
    ensures QueueBacklog(slots, arr) <= |arr|
  {
    if slots != [] {
      var n := |slots| - 1;
      var init := slots[..n];
      assert NoUnderflow(init, arr) by {
        forall k | 0 <= k < |init| ensures k <= CountArrived(arr, init[k].start) {
          assert init[k] == slots[k];
        }
      }
      BacklogIsLargestDifference(init, arr);
      assert WrapSub(CountArrived(arr, slots[n].start), n) == CountArrived(arr, slots[n].start) - n;
      forall k | 0 <= k < |slots| ensures CountArrived(arr, slots[k].start) - k <= QueueBacklog(slots, arr) {
        if k < n {
          assert init[k] == slots[k];
        }
      }
      if init != [] && QueueBacklog(init, arr) >= CountArrived(arr, slots[n].start) - n {
        var k :| 0 <= k < |init| && QueueBacklog(init, arr) == CountArrived(arr, init[k].start) - k;
        assert init[k] == slots[k];
      }
    }
  }

  /**
   * The inner loop of calculate_max_queue_size for one queue: arrivals sorted by time are consumed
   * by a cursor while the (start-ordered) slots are walked.
   */
  method QueueMaxSize(slots: seq<ReservedSlot>, arrivals: seq<Arrival>) returns (m: nat)
    requires SortedBy(slots, StartNextKey) && |slots| <= SizeMax && |arrivals| <= SizeMax
    ensures m == QueueBacklog(slots, arrivals)
  {
    var arr := SortByKey(arrivals, TimeKey);
    assert |arr| == |multiset(arr)| == |arrivals|;
    m := 0;
    var sent := 0;
    var received := 0;
    var ptr := 0;
    var k := 0;
    while k < |slots|
      invariant 0 <= k <= |slots| && 0 <= ptr <= |arr|
      invariant sent == k && received == ptr
      invariant m == QueueBacklog(slots[..k], arrivals)
      invariant k == 0 ==> ptr == 0
      invariant k > 0 ==> (forall i :: 0 <= i < ptr ==> arr[i].time <= slots[k - 1].start)
      invariant k > 0 && ptr < |arr| ==> arr[ptr].time > slots[k - 1].start
    {
      var s := slots[k];
      assert k > 0 ==> KeyLe(StartNextKey(slots[k - 1]), StartNextKey(s));
      ptr := PassArrivals(arr, ptr, s.start);
      received := ptr;
      BacklogStep(slots, arrivals, arr, k, ptr, m);
      m := Max(m, WrapSub(received, sent));
      sent := sent + 1;
      k := k + 1;
    }
    assert slots[..k] == slots;
  }

  /** The inner loop of getQueueMaxSize: the cursor moves past every arrival at or before the start tick. */
  method PassArrivals(arr: seq<Arrival>, ptr0: nat, start: nat) returns (ptr: nat)
    requires ptr0 <= |arr| && forall i :: 0 <= i < ptr0 ==> arr[i].time <= start
    ensures ptr0 <= ptr <= |arr|
    ensures forall i :: 0 <= i < ptr ==> arr[i].time <= start
    ensures ptr < |arr| ==> arr[ptr].time > start
  {
    ptr := ptr0;
    while ptr < |arr| && arr[ptr].time <= start
      invariant ptr0 <= ptr <= |arr|
      invariant forall i :: 0 <= i < ptr ==> arr[i].time <= start
    {
      ptr := ptr + 1;
    }
  }

  /** After the cursor passed every arrival up to slot k's start, the backlog takes in slot k. */
  lemma BacklogStep(slots: seq<ReservedSlot>, arrivals: seq<Arrival>, arr: seq<Arrival>, k: nat, ptr: nat, m: nat)
    requires |slots| <= SizeMax && |arrivals| <= SizeMax && |arr| == |arrivals| && k < |slots| && ptr <= |arr|
    requires SortedBy(arr, TimeKey) && multiset(arr) == multiset(arrivals)
    requires forall i :: 0 <= i < ptr ==> arr[i].time <= slots[k].start
    requires ptr < |arr| ==> arr[ptr].time > slots[k].start
    requires m == QueueBacklog(slots[..k], arrivals)
    ensures Max(m, WrapSub(ptr, k)) == QueueBacklog(slots[..k + 1], arrivals)
  {
    CountSorted(arr, slots[k].start, ptr);
    CountArrivedPermutation(arr, arrivals, slots[k].start);
    assert slots[..k + 1][..k] == slots[..k] && slots[..k + 1][k] == slots[k];
  }

  predicate QueuesMeasurable(queues: seq<EgressQueue>, reserved: seq<seq<ReservedSlot>>, arrivals: seq<seq<Arrival>>) {
    forall i :: 0 <= i < |queues| ==>
      queues[i].id < |reserved| && queues[i].id < |arrivals|
      && |reserved[queues[i].id]| <= SizeMax && |arrivals[queues[i].id]| <= SizeMax
  }

  /**
   * The outer loop of calculate_max_queue_size: end-device queues are skipped, and so is a queue
   * with fewer arrivals than the maximum found so far.
   */
  function MaxOverQueues(queues: seq<EgressQueue>, reserved: seq<seq<ReservedSlot>>, arrivals: seq<seq<Arrival>>, acc: nat): nat
    requires QueuesMeasurable(queues, reserved, arrivals)
  {
    if queues == [] then acc
    else
      var q := queues[0].id;
      var acc' := if queues[0].endDevice || |arrivals[q]| < acc then acc
                  else Max(acc, QueueBacklog(reserved[q], arrivals[q]));
      MaxOverQueues(queues[1..], reserved, arrivals, acc')
  }

  /** Reference definition: the largest backlog over all switch queues, nothing skipped. */
  function LargestBacklog(queues: seq<EgressQueue>, reserved: seq<seq<ReservedSlot>>, arrivals: seq<seq<Arrival>>): nat
    requires QueuesMeasurable(queues, reserved, arrivals)
  {
    if queues == [] then 0
    else
      var q := queues[0].id;
      var here := if queues[0].endDevice then 0 else QueueBacklog(reserved[q], arrivals[q]);
      Max(here, LargestBacklog(queues[1..], reserved, arrivals))
  }

  /**
   * When no queue sends a frame before it has arrived, skipping queues with fewer arrivals than the
   * current maximum is harmless: the result is the largest backlog over all switch queues.
   */
  lemma {:induction false} SkipIsHarmless(queues: seq<EgressQueue>, reserved: seq<seq<ReservedSlot>>, arrivals: seq<seq<Arrival>>, acc: nat)
    requires QueuesMeasurable(queues, reserved, arrivals)
    requires forall i :: 0 <= i < |queues| ==> NoUnderflow(reserved[queues[i].id], arrivals[queues[i].id])
    ensures MaxOverQueues(queues, reserved, arrivals, acc) == Max(acc, LargestBacklog(queues, reserved, arrivals))
  {
    if queues != [] {
      var q := queues[0].id;
      BacklogIsLargestDifference(reserved[q], arrivals[q]);
      var acc' := if queues[0].endDevice || |arrivals[q]| < acc then acc
                  else Max(acc, QueueBacklog(reserved[q], arrivals[q]));
      SkipIsHarmless(queues[1..], reserved, arrivals, acc');
    }
  }

  /**
   * calculate_max_queue_size: sorts every reserved list of the utilization list in place, then
   * measures the switch queues of the graph in order.
   */
  method MaxQueueSize(ul: NetworkUtilizationList, queues: seq<EgressQueue>) returns (m: nat)
    requires ul.Valid()
    requires forall i :: 0 <= i < |queues| ==> queues[i].id < ul.links
    requires forall q :: 0 <= q < ul.links ==> |ul.reserved[q]| <= SizeMax && |ul.arrivals[q]| <= SizeMax
    modifies ul
    ensures ul.Valid() && ul.free == old(ul.free) && ul.arrivals == old(ul.arrivals)
    ensures forall q :: 0 <= q < ul.links ==>
              SortedBy(ul.reserved[q], StartNextKey) && multiset(ul.reserved[q]) == multiset(old(ul.reserved[q]))
    ensures QueuesMeasurable(queues, ul.reserved, ul.arrivals)
    ensures m == MaxOverQueues(queues, ul.reserved, ul.arrivals, 0)
  {
    ul.SortReservedEgressSlots();
    var reserved, arrivals := ul.reserved, ul.arrivals;
    forall q | 0 <= q < ul.links ensures |reserved[q]| <= SizeMax {
      assert |reserved[q]| == |multiset(reserved[q])| == |old(ul.reserved[q])|;
    }
    m := MaxOverQueueList(queues, reserved, arrivals);
  }

  /** The loop over the queues, on the sorted lists. */
  method MaxOverQueueList(queues: seq<EgressQueue>, reserved: seq<seq<ReservedSlot>>, arrivals: seq<seq<Arrival>>) returns (m: nat)
    requires QueuesMeasurable(queues, reserved, arrivals)
    requires forall i :: 0 <= i < |queues| ==> SortedBy(reserved[queues[i].id], StartNextKey)
    ensures m == MaxOverQueues(queues, reserved, arrivals, 0)
  {
    m := 0;
    var i := 0;
    while i < |queues|
      invariant 0 <= i <= |queues|
      invariant MaxOverQueues(queues[i..], reserved, arrivals, m) == MaxOverQueues(queues, reserved, arrivals, 0)
    {
      var q := queues[i];
      assert queues[i..][1..] == queues[i + 1..];
      if q.endDevice {
        i := i + 1;
        continue;
      }
      if |arrivals[q.id]| < m {
        i := i + 1;
        continue;
      }
      var here := QueueMaxSize(reserved[q.id], arrivals[q.id]);
      m := Max(m, here);
      i := i + 1;
    }
  }

  // ---------------------------------------------------------------------------
  // calculate_scheduling_table_sizes

  /** One forwarding-table entry per reservation, per egress queue in queue order. */
  function SchedulingTableSizes(reserved: seq<seq<ReservedSlot>>): (sizes: seq<nat>)
    ensures |sizes| == |reserved|
    ensures forall q :: 0 <= q < |reserved| ==> sizes[q] == |reserved[q]|
  {
    seq(|reserved|, q requires 0 <= q < |reserved| => |reserved[q]|)
  }

  /** A run of reserveSlot calls grows each queue's table by the requests sent to that queue. */
  lemma TableSizesAfterReservations(st: ListState, reqs: seq<Request>, flow: nat, config: nat, q: nat)
    requires RequestsFit(st, reqs) && QueuesExist(st, q)
    ensures SchedulingTableSizes(ReserveAll(st, reqs, flow, config).reserved)[q]
         == SchedulingTableSizes(st.reserved)[q] + |QueueRequests(reqs, q)|
  {
    ReserveAllCounts(st, reqs, flow, config, q);
  }
}
