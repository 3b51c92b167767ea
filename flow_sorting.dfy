/**
 * LowPeriodFlowsFirst (include/solver/FlowSorting/LowPeriodFlowsFirst.h): the comparator that a
 * priority queue of flows uses.  `lhs < rhs` means rhs is served before lhs: the smaller period
 * first, then the larger frame, then the lower id.
 */
module FlowSorting {
  import opened Graph

  /** The order of service: ascending period, descending frame size, ascending id. */
  function ServiceKey(f: Flow): (int, int, int) {
    (f.period, -(f.frameSize as int), f.id)
  }

  predicate KeyLess(a: (int, int, int), b: (int, int, int)) {
    a.0 < b.0 || (a.0 == b.0 && (a.1 < b.1 || (a.1 == b.1 && a.2 < b.2)))
  }

  /** operator(): lhs ranks below rhs, i.e. rhs is served first. */
  function RanksBelow(lhs: Flow, rhs: Flow): (b: bool)
    ensures b <==> KeyLess(ServiceKey(rhs), ServiceKey(lhs))
  {
    if lhs.period != rhs.period then lhs.period > rhs.period
    else if lhs.frameSize != rhs.frameSize then lhs.frameSize < rhs.frameSize
    else lhs.id > rhs.id
  }

  /**
   * The comparator is a strict order, as std::priority_queue requires, and it is total on flows
   * with distinct ids.
   */
  lemma RanksBelowIsStrictOrder(a: Flow, b: Flow, c: Flow)
    ensures !RanksBelow(a, a)
    ensures RanksBelow(a, b) ==> !RanksBelow(b, a)
    ensures RanksBelow(a, b) && RanksBelow(b, c) ==> RanksBelow(a, c)
    ensures a.id != b.id ==> RanksBelow(a, b) || RanksBelow(b, a)
  {
  }

  /** The flow at the top of the queue: no other flow ranks above it. */
  function NextServed(flows: seq<Flow>): (i: nat)
    requires |flows| > 0
    ensures i < |flows|
    ensures forall j :: 0 <= j < |flows| ==> !RanksBelow(flows[i], flows[j])
  {
    if |flows| == 1 then 0
    else
      var rest := NextServed(flows[1..]);
      if RanksBelow(flows[0], flows[1..][rest]) then
        assert forall j :: 1 <= j < |flows| ==> flows[j] == flows[1..][j - 1];
        RanksBelowIsStrictOrder(flows[1..][rest], flows[0], flows[0]);
        rest + 1
      else
        assert forall j :: 1 <= j < |flows| ==> flows[j] == flows[1..][j - 1];
        forall j | 1 <= j < |flows| ensures !RanksBelow(flows[0], flows[j]) {
          RanksBelowIsStrictOrder(flows[0], flows[j], flows[1..][rest]);
          RanksBelowIsStrictOrder(flows[j], flows[1..][rest], flows[0]);
        }
        0
  }

  /** Among flows with distinct ids the top is unique: a smaller period always wins. */
  lemma NextServedHasSmallestPeriod(flows: seq<Flow>)
    requires |flows| > 0
    ensures forall j :: 0 <= j < |flows| ==> flows[NextServed(flows)].period <= flows[j].period
  {
    var i := NextServed(flows);
    forall j | 0 <= j < |flows| ensures flows[i].period <= flows[j].period {
      assert !RanksBelow(flows[i], flows[j]);
    }
  }
}
