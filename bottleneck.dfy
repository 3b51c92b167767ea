/**
 * BottleneckHeuristic (include/solver/ConfigurationRating/Configuration/BottleneckHeuristic.h):
 * the free capacity a link still has before a deadline, and the choice of the tightest interior
 * link of a path.
 */
module Bottleneck {
  import opened Slots
  import opened UtilizationList
  import opened UtilStatistics

  /** The ticks one free slot contributes before the deadline (size_t arithmetic). */
  function Contribution(slot: FreeSlot, deadline: nat): nat
    requires slot.start <= SizeMax && slot.last <= SizeMax && deadline <= SizeMax
  {
    if slot.last < deadline then WrapSub(slot.last + 1, slot.start)
    else if slot.start >= deadline then 0
    else deadline - slot.start
  }

  /** calculate_remaining_link_capacity_until: the contributions summed over the free list. */
  function RemainingCapacity(l: seq<FreeSlot>, deadline: nat): nat
    requires SizeTFree(l) && deadline <= SizeMax
  {
    if l == [] then 0 else Contribution(l[0], deadline) + RemainingCapacity(l[1..], deadline)
  }

  /** The free ticks of list l before the deadline. */
  ghost function FreeBefore(l: seq<FreeSlot>, deadline: nat): set<int> {
    set t | 0 <= t < deadline && FreeAt(l, t)
  }

  ghost function SlotBefore(s: FreeSlot, deadline: nat): set<int> {
    set t | 0 <= t < deadline && InFree(s, t)
  }

  lemma SlotContribution(s: FreeSlot, deadline: nat)
    requires s.start <= s.last <= SizeMax && deadline <= SizeMax
    ensures Contribution(s, deadline) == |SlotBefore(s, deadline)|
  {
    var hi := if s.last + 1 < deadline then s.last + 1 else deadline;
    if s.start < hi {
      assert SlotBefore(s, deadline) == Range(s.start, hi);
      RangeSize(s.start, hi);
    } else {
      assert SlotBefore(s, deadline) == {};
    }
  }

  /** For a valid free list the capacity is the number of free ticks before the deadline. */
  lemma {:induction false} CapacityCountsFreeTicks(l: seq<FreeSlot>, hc: nat, deadline: nat)
    requires FreeListValid(l, hc) && hc <= SizeMax && deadline <= SizeMax
    ensures SizeTFree(l) && RemainingCapacity(l, deadline) == |FreeBefore(l, deadline)|
  {
    if l == [] {
      assert FreeBefore(l, deadline) == {};
    } else {
      FreeBeforeSplit(l, hc, deadline);
      CapacityCountsFreeTicks(l[1..], hc, deadline);
      SlotContribution(l[0], deadline);
    }
  }

  /** The free ticks of a valid list are those of its first slot and, apart from them, those of the rest. */
  lemma FreeBeforeSplit(l: seq<FreeSlot>, hc: nat, deadline: nat)
    requires FreeListValid(l, hc) && l != []
    ensures FreeListValid(l[1..], hc)
    ensures FreeBefore(l, deadline) == SlotBefore(l[0], deadline) + FreeBefore(l[1..], deadline)
    ensures SlotBefore(l[0], deadline) * FreeBefore(l[1..], deadline) == {}
  {
    var rest := l[1..];
    assert FreeListValid(rest, hc) by {
      forall j, k | 0 <= j < k < |rest| ensures rest[j].last + 1 < rest[k].start {
        assert rest[j] == l[j + 1] && rest[k] == l[k + 1];
      }
    }
    forall t ensures t in FreeBefore(l, deadline) <==> t in SlotBefore(l[0], deadline) || t in FreeBefore(rest, deadline) {
      if FreeAt(l, t) {
        var k :| 0 <= k < |l| && InFree(l[k], t);
        if k > 0 {
          assert rest[k - 1] == l[k];
        }
      }
      if FreeAt(rest, t) {
        var k :| 0 <= k < |rest| && InFree(rest[k], t);
        assert l[k + 1] == rest[k];
      }
      assert InFree(l[0], t) ==> FreeAt(l, t);
    }
    forall t | t in SlotBefore(l[0], deadline) ensures t !in FreeBefore(rest, deadline) {
      forall m | 0 <= m < |rest| ensures !InFree(rest[m], t) {
        assert rest[m] == l[m + 1];
      }
    }
  }

  /**
   * With the deadline at the hyper-cycle, a queue's remaining capacity and its utilization
   * (calculateLinkUtilization) add up to the hyper-cycle.
   */
  lemma CapacityAndUtilizationSum(f: seq<FreeSlot>, r: seq<ReservedSlot>, hc: nat)
    requires Tiles(f, r, hc) && hc <= SizeMax
    ensures SizeTFree(f) && SizeTSlots(r)
    ensures RemainingCapacity(f, hc) + ReservedTicks(r) == hc
  {
    CapacityCountsFreeTicks(f, hc, hc);
    ReservedTicksCountsTicks(r, hc);
    assert FreeBefore(f, hc) + ReservedSet(r, hc) == Range(0, hc);
    assert FreeBefore(f, hc) * ReservedSet(r, hc) == {};
    RangeSize(0, hc);
  }

  /**
   * std::ranges::min_element over caps[lo..hi): the first smallest index, or hi for an empty
   * range.
   */
  function FirstMinimum(caps: seq<nat>, lo: nat, hi: nat): (i: nat)
    requires lo <= hi <= |caps|
    ensures lo <= i <= hi
    ensures i == hi <==> lo == hi
    ensures i < hi ==> forall j :: lo <= j < hi ==> caps[i] <= caps[j]
    ensures i < hi ==> forall j :: lo <= j < i ==> caps[i] < caps[j]
    decreases hi - lo
  {
    if lo == hi then hi
    else
      var rest := FirstMinimum(caps, lo + 1, hi);
      if rest == hi || caps[lo] <= caps[rest] then lo else rest
  }

  /**
   * rate's choice of link: the first and last links of the path (to and from the end devices)
   * are ignored.  With only two links the empty range yields its end, the last link.
   */
  function BottleneckLink(caps: seq<nat>): (i: nat)
    requires |caps| >= 2
    ensures 1 <= i <= |caps| - 1
    ensures |caps| == 2 ==> i == 1
    ensures |caps| > 2 ==> i < |caps| - 1 && forall j :: 1 <= j < |caps| - 1 ==> caps[i] <= caps[j]
  {
    FirstMinimum(caps, 1, |caps| - 1)
  }

  /** The remaining capacity of every link of a path, up to the flow's period. */
  function PathCapacities(free: seq<seq<FreeSlot>>, path: seq<nat>, deadline: nat): (caps: seq<nat>)
    requires deadline <= SizeMax
    requires forall k :: 0 <= k < |path| ==> path[k] < |free| && SizeTFree(free[path[k]])
    ensures |caps| == |path|
    ensures forall k :: 0 <= k < |path| ==> caps[k] == RemainingCapacity(free[path[k]], deadline)
  {
    seq(|path|, k requires 0 <= k < |path| => RemainingCapacity(free[path[k]], deadline))
  }

  /**
   * The remaining capacity of the bottleneck link: the value the heuristic evidently means to
   * rank configurations by, and the key its min_element compares.
   */
  function BottleneckCapacity(free: seq<seq<FreeSlot>>, path: seq<nat>, period: nat): (c: nat)
    requires |path| >= 2 && period <= SizeMax
    requires forall k :: 0 <= k < |path| ==> path[k] < |free| && SizeTFree(free[path[k]])
    ensures exists k :: 1 <= k < |path| && c == RemainingCapacity(free[path[k]], period)
    ensures |path| > 2 ==> forall k :: 1 <= k < |path| - 1 ==> c <= RemainingCapacity(free[path[k]], period)
  {
    var caps := PathCapacities(free, path, period);
    var i := BottleneckLink(caps);
    caps[i]
  }

  /**
   * What rate reports as written (before the float tie-breaker 1 / config is added): the
   * dereferenced min_element iterator, which points into the path, so the queue id of the
   * bottleneck link rather than its capacity.
   */
  function BottleneckQueue(free: seq<seq<FreeSlot>>, path: seq<nat>, period: nat): (q: nat)
    requires |path| >= 2 && period <= SizeMax
    requires forall k :: 0 <= k < |path| ==> path[k] < |free| && SizeTFree(free[path[k]])
    ensures exists k :: 1 <= k < |path| && q == path[k]
    ensures q < |free| && SizeTFree(free[q]) && RemainingCapacity(free[q], period) == BottleneckCapacity(free, path, period)
  {
    var caps := PathCapacities(free, path, period);
    path[BottleneckLink(caps)]
  }

  /**
   * The ranking as written follows queue ids, not capacities: of two paths, the one through
   * queue 1 (10 free ticks) reports 1 and the one through queue 2 (no free tick) reports 2, so
   * the first ranks lower although its bottleneck has the larger capacity.
   */
  lemma RankedByQueueId()
    ensures var free := [[], [FreeSlot(0, 9)], [], []];
      BottleneckQueue(free, [0, 1, 3], 10) == 1 && BottleneckQueue(free, [0, 2, 3], 10) == 2
      && BottleneckCapacity(free, [0, 1, 3], 10) == 10 && BottleneckCapacity(free, [0, 2, 3], 10) == 0
  {
    var free := [[], [FreeSlot(0, 9)], [], []];
    assert RemainingCapacity(free[1], 10) == 10 by {
      assert free[1][1..] == [];
    }
  }
}
