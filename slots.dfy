/**
 * The slot records of the utilization list (include/solver/UtilizationList.h) and the
 * predicates that describe a consistent egress-queue timeline.
 *
 * A free slot covers the macro ticks start..last INCLUSIVE; a reserved slot covers
 * start..next-1 (half-open).  A free list is kept sorted and non-adjacent; the lemmas
 * below show how the edits made by reserveSlot and freeSlot change the set of free ticks.
 */
module Slots {
  import opened Optional

  /** Largest value of a 64-bit size_t. */
  const SizeMax: nat := 0xFFFF_FFFF_FFFF_FFFF

  datatype FreeSlot = FreeSlot(start: nat, last: nat)

  datatype ReservedSlot = ReservedSlot(start: nat, next: nat, flow: nat, config: nat)

  /** A transmission opportunity: send on `queue` during [start, next), frame arrived at `arrival`. */
  datatype Request = Request(queue: nat, start: nat, next: nat, arrival: nat)

  datatype Ordering = Less | Equivalent | Greater

  /** The three-way comparison of reserved slots: by start, then by next; owner fields are ignored. */
  function Compare(a: ReservedSlot, b: ReservedSlot): (o: Ordering)
    ensures o == Less <==> a.start < b.start || (a.start == b.start && a.next < b.next)
    ensures o == Equivalent <==> a.start == b.start && a.next == b.next
    ensures o == Greater <==> b.start < a.start || (a.start == b.start && b.next < a.next)
  {
    if a.start < b.start then Less
    else if a.start > b.start then Greater
    else if a.next < b.next then Less
    else if a.next > b.next then Greater
    else Equivalent
  }

  /** The ordering is coarser than equality: two slots of different flows can compare Equivalent. */
  lemma EquivalentIsNotEquality()
    ensures exists a: ReservedSlot, b: ReservedSlot :: Compare(a, b) == Equivalent && a != b
  {
    var a := ReservedSlot(3, 7, 1, 1);
    var b := ReservedSlot(3, 7, 2, 5);
    assert Compare(a, b) == Equivalent && a != b;
  }

  /** Reserved slots of one flow, in stored order (getReservedSlotsOf). */
  function SlotsOfFlow(l: seq<ReservedSlot>, flow: nat): (r: seq<ReservedSlot>)
    ensures |r| <= |l|
    ensures forall s :: s in r <==> s in l && s.flow == flow
  {
    if l == [] then []
    else (if l[0].flow == flow then [l[0]] else []) + SlotsOfFlow(l[1..], flow)
  }

  /** The filter keeps the stored order: it distributes over concatenation. */
  lemma {:induction false} SlotsOfFlowAppend(a: seq<ReservedSlot>, b: seq<ReservedSlot>, flow: nat)
    ensures SlotsOfFlow(a + b, flow) == SlotsOfFlow(a, flow) + SlotsOfFlow(b, flow)
  {
    if a == [] {
      assert a + b == b;
    } else {
      assert (a + b)[1..] == a[1..] + b;
      SlotsOfFlowAppend(a[1..], b, flow);
    }
  }

  /** The bounds of every free slot fit in size_t. */
  predicate SizeTFree(l: seq<FreeSlot>) {
    forall k :: 0 <= k < |l| ==> l[k].start <= SizeMax && l[k].last <= SizeMax
  }

  /** The bounds of every reserved slot fit in size_t. */
  predicate SizeTSlots(r: seq<ReservedSlot>) {
    forall k :: 0 <= k < |r| ==> r[k].start <= SizeMax && r[k].next <= SizeMax
  }

  // ---------------------------------------------------------------------------
  // Ticks

  predicate InFree(s: FreeSlot, t: int) {
    s.start <= t <= s.last
  }

  predicate InReserved(s: ReservedSlot, t: int) {
    s.start <= t < s.next
  }

  /** Tick t is free according to free list l. */
  predicate FreeAt(l: seq<FreeSlot>, t: int) {
    exists k :: 0 <= k < |l| && InFree(l[k], t)
  }

  /** Tick t is reserved according to reserved list l. */
  predicate ReservedAt(l: seq<ReservedSlot>, t: int) {
    exists k :: 0 <= k < |l| && InReserved(l[k], t)
  }

  /** Every free slot is non-empty and ends before the hyper-cycle. */
  predicate WellFormedFree(l: seq<FreeSlot>, hc: nat) {
    forall k :: 0 <= k < |l| ==> l[k].start <= l[k].last < hc
  }

  /** A free list as the utilization list keeps it: well-formed, sorted, and no two slots touch. */
  predicate FreeListValid(l: seq<FreeSlot>, hc: nat) {
    WellFormedFree(l, hc) &&
    forall j, k :: 0 <= j < k < |l| ==> l[j].last + 1 < l[k].start
  }

  /** The same property stated on neighbours only, as a linear scan checks it. */
  predicate FreeListChained(l: seq<FreeSlot>, hc: nat) {
    WellFormedFree(l, hc) &&
    forall k :: 0 <= k < |l| - 1 ==> l[k].last + 1 < l[k + 1].start
  }

  lemma {:induction false} ChainedIsValid(l: seq<FreeSlot>, hc: nat)
    ensures FreeListChained(l, hc) <==> FreeListValid(l, hc)
    decreases |l|
  {
    if FreeListChained(l, hc) && |l| > 1 {
      ChainedIsValid(l[1..], hc);
      forall j, k | 0 <= j < k < |l| ensures l[j].last + 1 < l[k].start {
        if j > 0 {
          assert l[1..][j - 1] == l[j] && l[1..][k - 1] == l[k];
        } else if k > 1 {
          assert l[1..][0] == l[1] && l[1..][k - 1] == l[k];
        }
      }
    }
  }

  predicate Apart(a: ReservedSlot, b: ReservedSlot) {
    a.next <= b.start || b.next <= a.start
  }

  /** Reserved slots are non-empty, inside the hyper-cycle and pairwise disjoint. */
  predicate ReservedListValid(r: seq<ReservedSlot>, hc: nat) {
    (forall k :: 0 <= k < |r| ==> r[k].start < r[k].next <= hc) &&
    (forall j, k :: 0 <= j < |r| && 0 <= k < |r| && j != k ==> Apart(r[j], r[k]))
  }

  /**
   * The free and reserved lists of one egress queue partition the hyper-cycle [0, hc):
   * every tick is in exactly one slot of either list.
   */
  ghost predicate Tiles(f: seq<FreeSlot>, r: seq<ReservedSlot>, hc: nat) {
    FreeListValid(f, hc) && ReservedListValid(r, hc) &&
    (forall t :: 0 <= t < hc ==> FreeAt(f, t) || ReservedAt(r, t)) &&
    (forall t :: !(FreeAt(f, t) && ReservedAt(r, t)))
  }

  // ---------------------------------------------------------------------------
  // Free ticks of composed lists

  lemma FreeAtConcat(a: seq<FreeSlot>, b: seq<FreeSlot>, t: int)
    ensures FreeAt(a + b, t) <==> FreeAt(a, t) || FreeAt(b, t)
  {
    if FreeAt(a + b, t) {
      var k :| 0 <= k < |a + b| && InFree((a + b)[k], t);
      if k >= |a| {
        assert b[k - |a|] == (a + b)[k];
      }
    }
    if FreeAt(b, t) {
      var k :| 0 <= k < |b| && InFree(b[k], t);
      assert (a + b)[|a| + k] == b[k];
    }
    if FreeAt(a, t) {
      var k :| 0 <= k < |a| && InFree(a[k], t);
      assert (a + b)[k] == a[k];
    }
  }

  lemma FreeAtSingle(x: FreeSlot, t: int)
    ensures FreeAt([x], t) <==> InFree(x, t)
  {
    if InFree(x, t) {
      assert [x][0] == x;
    }
  }

  /** Free ticks of a list written as prefix + [x] + suffix. */
  lemma FreeAtSplice(a: seq<FreeSlot>, x: FreeSlot, c: seq<FreeSlot>, t: int)
    ensures FreeAt(a + [x] + c, t) <==> FreeAt(a, t) || InFree(x, t) || FreeAt(c, t)
  {
    FreeAtConcat(a + [x], c, t);
    FreeAtConcat(a, [x], t);
    FreeAtSingle(x, t);
  }

  /** Two valid lists joined where the first ends well before the second begins form a valid list. */
  lemma ValidJoin(a: seq<FreeSlot>, c: seq<FreeSlot>, hc: nat)
    requires FreeListValid(a, hc) && FreeListValid(c, hc)
    requires a != [] && c != [] ==> a[|a| - 1].last + 1 < c[0].start
    ensures FreeListValid(a + c, hc)
  {
    var l := a + c;
    forall j, k | 0 <= j < k < |l| ensures l[j].last + 1 < l[k].start {
      if j < |a| && k >= |a| {
        assert l[j] == a[j] && l[k] == c[k - |a|];
        assert a[j].last <= a[|a| - 1].last;
        assert c[0].start <= c[k - |a|].start;
      }
    }
  }

  lemma ValidSingle(x: FreeSlot, hc: nat)
    requires x.start <= x.last < hc
    ensures FreeListValid([x], hc)
  {
  }

  lemma ValidSplice(a: seq<FreeSlot>, x: FreeSlot, c: seq<FreeSlot>, hc: nat)
    requires FreeListValid(a, hc) && FreeListValid(c, hc) && x.start <= x.last < hc
    requires a != [] ==> a[|a| - 1].last + 1 < x.start
    requires c != [] ==> x.last + 1 < c[0].start
    ensures FreeListValid(a + [x] + c, hc)
  {
    ValidSingle(x, hc);
    ValidJoin(a, [x], hc);
    ValidJoin(a + [x], c, hc);
  }

  lemma ValidPieces(l: seq<FreeSlot>, i: nat, j: nat, hc: nat)
    requires FreeListValid(l, hc) && i <= j <= |l|
    ensures FreeListValid(l[..i], hc) && FreeListValid(l[j..], hc)
  {
  }

  // ---------------------------------------------------------------------------
  // Canonical form

  lemma FreeAtTail(l: seq<FreeSlot>, hc: nat, t: int)
    requires FreeListValid(l, hc) && |l| > 0
    ensures FreeAt(l[1..], t) <==> FreeAt(l, t) && !InFree(l[0], t)
  {
    if FreeAt(l[1..], t) {
      var k :| 0 <= k < |l| - 1 && InFree(l[1..][k], t);
      assert l[1..][k] == l[k + 1];
      assert l[0].last + 1 < l[k + 1].start;
    }
    if FreeAt(l, t) && !InFree(l[0], t) {
      var k :| 0 <= k < |l| && InFree(l[k], t);
      assert l[1..][k - 1] == l[k];
    }
  }

  lemma FirstStartIsLeast(l: seq<FreeSlot>, hc: nat, t: int)
    requires FreeListValid(l, hc) && FreeAt(l, t)
    ensures l != [] && l[0].start <= t
  {
    var k :| 0 <= k < |l| && InFree(l[k], t);
    if k > 0 {
      assert l[0].last + 1 < l[k].start;
    }
  }

  lemma GapAfterFirst(l: seq<FreeSlot>, hc: nat)
    requires FreeListValid(l, hc) && l != []
    ensures !FreeAt(l, l[0].last + 1)
  {
    forall k | 0 <= k < |l| ensures !InFree(l[k], l[0].last + 1) {
      if k > 0 {
        assert l[0].last + 1 < l[k].start;
      }
    }
  }

  lemma FirstStartIsFree(l: seq<FreeSlot>, hc: nat)
    requires FreeListValid(l, hc) && l != []
    ensures FreeAt(l, l[0].start)
  {
    assert InFree(l[0], l[0].start);
  }

  /** A valid free list is determined by its set of free ticks. */
  lemma {:induction false} FreeListCanonical(a: seq<FreeSlot>, b: seq<FreeSlot>, hc: nat)
    requires FreeListValid(a, hc) && FreeListValid(b, hc)
    requires forall t :: FreeAt(a, t) <==> FreeAt(b, t)
    ensures a == b
    decreases |a|
  {
    if a != [] {
      FirstStartIsFree(a, hc);
      FirstStartIsLeast(b, hc, a[0].start);
    }
    if b != [] {
      FirstStartIsFree(b, hc);
      FirstStartIsLeast(a, hc, b[0].start);
    }
    if a != [] {
      assert a[0].start == b[0].start;
      GapAfterFirst(a, hc);
      GapAfterFirst(b, hc);
      assert !InFree(b[0], a[0].last + 1);
      assert !InFree(a[0], b[0].last + 1);
      assert a[0] == b[0];
      forall t ensures FreeAt(a[1..], t) <==> FreeAt(b[1..], t) {
        FreeAtTail(a, hc, t);
        FreeAtTail(b, hc, t);
      }
      FreeListCanonical(a[1..], b[1..], hc);
      assert a == [a[0]] + a[1..] && b == [b[0]] + b[1..];
    }
  }

  // ---------------------------------------------------------------------------
  // reserveSlot's edit of a free list

  /** The last tick before `next` as size_t arithmetic computes it: 0 - 1 wraps to SIZE_MAX. */
  function LastTickBefore(next: nat): (r: nat)
    ensures next >= 1 ==> r + 1 == next
    ensures next == 0 ==> r == SizeMax
  {
    if next == 0 then SizeMax else next - 1
  }

  /** The free slot can host the reservation [start, next) (reserveSlot's find_if predicate). */
  predicate Contains(slot: FreeSlot, start: nat, next: nat) {
    slot.start <= start && slot.last >= LastTickBefore(next)
  }

  /** Index of the first free slot that can host [start, next), as find_if returns it. */
  function FindContaining(l: seq<FreeSlot>, start: nat, next: nat): (r: Option<nat>)
    ensures r.Some? ==> r.value < |l| && Contains(l[r.value], start, next)
    ensures r.Some? ==> forall k :: 0 <= k < r.value ==> !Contains(l[k], start, next)
    ensures r.None? <==> forall k :: 0 <= k < |l| ==> !Contains(l[k], start, next)
  {
    if l == [] then None
    else if Contains(l[0], start, next) then Some(0)
    else match FindContaining(l[1..], start, next)
      case None => None
      case Some(k) => Some(k + 1)
  }

  /**
   * The free list after reserveSlot carves [start, next) out of slot k: the slot is erased
   * when it matches exactly, shortened at the front or at the back when one end matches,
   * and split in two otherwise. The back-end test last + 1 == next is taken on unbounded
   * integers; in size_t it also holds for last == SIZE_MAX and next == 0, a case only the
   * single slot [0, SIZE_MAX] of a hyper-cycle of 0 can reach.
   */
  function CarveAt(l: seq<FreeSlot>, k: nat, start: nat, next: nat): (r: seq<FreeSlot>)
    requires k < |l| && Contains(l[k], start, next)
    ensures |r| == |l| - 1 <==> l[k].start == start && l[k].last == LastTickBefore(next)
    ensures |r| == |l| + 1 <==> l[k].start < start && l[k].last + 1 != next
    ensures |l| - 1 <= |r| <= |l| + 1
    ensures forall j :: 0 <= j < k ==> r[j] == l[j]
    ensures forall j :: k < j < |l| ==> r[j + |r| - |l|] == l[j]
  {
    var slot := l[k];
    if slot.start == start && slot.last == LastTickBefore(next) then
      l[..k] + l[k + 1..]
    else if slot.start == start then
      l[k := FreeSlot(next, slot.last)]
    else if slot.last + 1 == next then
      l[k := FreeSlot(slot.start, start - 1)]
    else
      l[..k] + [FreeSlot(slot.start, start - 1), FreeSlot(next, slot.last)] + l[k + 1..]
  }

  /** The run of slots reserveSlot leaves in place of the slot it carves from. */
  function CarvedPieces(slot: FreeSlot, start: nat, next: nat): (r: seq<FreeSlot>)
    requires Contains(slot, start, next)
    ensures start <= next ==> forall j :: 0 <= j < |r| ==> slot.start <= r[j].start <= r[j].last <= slot.last
  {
    if slot.start == start && slot.last == LastTickBefore(next) then []
    else if slot.start == start then [FreeSlot(next, slot.last)]
    else if slot.last + 1 == next then [FreeSlot(slot.start, start - 1)]
    else [FreeSlot(slot.start, start - 1), FreeSlot(next, slot.last)]
  }

  lemma CarveAtIsSplice(l: seq<FreeSlot>, k: nat, start: nat, next: nat)
    requires k < |l| && Contains(l[k], start, next)
    ensures CarveAt(l, k, start, next) == l[..k] + CarvedPieces(l[k], start, next) + l[k + 1..]
  {
  }

  /**
   * Replacing one slot of a valid list by a valid run of slots lying inside it keeps the list
   * valid; the free ticks are those of the untouched prefix and suffix plus those of the run.
   */
  lemma ReplaceSlot(a: seq<FreeSlot>, slot: FreeSlot, c: seq<FreeSlot>, mid: seq<FreeSlot>, hc: nat)
    requires FreeListValid(a + [slot] + c, hc) && FreeListValid(mid, hc)
    requires mid != [] ==> slot.start <= mid[0].start && mid[|mid| - 1].last <= slot.last
    ensures FreeListValid(a + mid + c, hc)
    ensures forall t :: FreeAt(a + mid + c, t) <==> FreeAt(a, t) || FreeAt(mid, t) || FreeAt(c, t)
    ensures forall t :: FreeAt(a + [slot] + c, t) <==> FreeAt(a, t) || InFree(slot, t) || FreeAt(c, t)
    ensures forall t :: FreeAt(a, t) ==> t < slot.start
    ensures forall t :: FreeAt(c, t) ==> t > slot.last
  {
    var l := a + [slot] + c;
    var k := |a|;
    SpliceSides(a, slot, c, hc);
    assert l[k] == slot;
    assert l[..k] == a && l[k + 1..] == c;
    ValidPieces(l, k, k + 1, hc);
    assert a != [] ==> a[|a| - 1] == l[k - 1];
    assert c != [] ==> c[0] == l[k + 1];
    ValidJoin(a, mid, hc);
    if a + mid != [] && c != [] {
      assert (a + mid)[|a + mid| - 1].last <= slot.last;
    }
    ValidJoin(a + mid, c, hc);
    forall t ensures FreeAt(a + mid + c, t) <==> FreeAt(a, t) || FreeAt(mid, t) || FreeAt(c, t) {
      FreeAtConcat(a + mid, c, t);
      FreeAtConcat(a, mid, t);
    }
  }

  /** In a valid list the slots before a given slot lie below it and those after it above it. */
  lemma SpliceSides(a: seq<FreeSlot>, slot: FreeSlot, c: seq<FreeSlot>, hc: nat)
    requires FreeListValid(a + [slot] + c, hc)
    ensures forall t :: FreeAt(a + [slot] + c, t) <==> FreeAt(a, t) || InFree(slot, t) || FreeAt(c, t)
    ensures forall t :: FreeAt(a, t) ==> t < slot.start
    ensures forall t :: FreeAt(c, t) ==> t > slot.last
  {
    var l := a + [slot] + c;
    var k := |a|;
    assert l[k] == slot;
    forall t ensures FreeAt(l, t) <==> FreeAt(a, t) || InFree(slot, t) || FreeAt(c, t) {
      FreeAtSplice(a, slot, c, t);
    }
    forall t | FreeAt(a, t) ensures t < slot.start {
      var j :| 0 <= j < |a| && InFree(a[j], t);
      assert a[j] == l[j];
    }
    forall t | FreeAt(c, t) ensures t > slot.last {
      var j :| 0 <= j < |c| && InFree(c[j], t);
      assert c[j] == l[k + 1 + j];
    }
  }

  lemma CarvedPiecesTicks(slot: FreeSlot, start: nat, next: nat, hc: nat)
    requires Contains(slot, start, next) && start < next && slot.last < hc
    ensures FreeListValid(CarvedPieces(slot, start, next), hc)
    ensures var mid := CarvedPieces(slot, start, next);
      mid != [] ==> slot.start <= mid[0].start && mid[|mid| - 1].last <= slot.last
    ensures forall t :: FreeAt(CarvedPieces(slot, start, next), t) <==> InFree(slot, t) && !(start <= t < next)
  {
    var mid := CarvedPieces(slot, start, next);
    forall t ensures FreeAt(mid, t) <==> InFree(slot, t) && !(start <= t < next) {
      if |mid| == 2 {
        assert mid == [mid[0]] + [mid[1]];
        FreeAtConcat([mid[0]], [mid[1]], t);
        FreeAtSingle(mid[0], t);
        FreeAtSingle(mid[1], t);
      } else if |mid| == 1 {
        FreeAtSingle(mid[0], t);
      }
    }
  }

  /**
   * Carving a non-empty reservation out of a valid list keeps it valid and removes exactly
   * the reserved ticks from the free ticks.
   */
  lemma CarveAtTicks(l: seq<FreeSlot>, k: nat, start: nat, next: nat, hc: nat)
    requires FreeListValid(l, hc) && k < |l| && Contains(l[k], start, next) && start < next
    ensures FreeListValid(CarveAt(l, k, start, next), hc)
    ensures forall t :: FreeAt(CarveAt(l, k, start, next), t) <==> FreeAt(l, t) && !(start <= t < next)
  {
    var mid := CarvedPieces(l[k], start, next);
    CarveAtIsSplice(l, k, start, next);
    CarvedPiecesTicks(l[k], start, next, hc);
    assert l == l[..k] + [l[k]] + l[k + 1..];
    ReplaceSlot(l[..k], l[k], l[k + 1..], mid, hc);
  }

  // ---------------------------------------------------------------------------
  // freeSlot's edits of a free list: each returns the ticks [begin, end) to the list

  /** l is the valid free list l0 with exactly the ticks [begin, end) added. */
  ghost predicate Freed(l: seq<FreeSlot>, l0: seq<FreeSlot>, hc: nat, begin: nat, end: nat) {
    FreeListValid(l, hc) && forall t :: FreeAt(l, t) <==> FreeAt(l0, t) || begin <= t < end
  }

  /** Inserting a new slot between two neighbours it does not touch. */
  lemma InsertFreed(l: seq<FreeSlot>, p: nat, begin: nat, end: nat, hc: nat)
    requires FreeListValid(l, hc) && p <= |l| && begin < end <= hc
    requires p > 0 ==> l[p - 1].last + 1 < begin
    requires p < |l| ==> end < l[p].start
    ensures Freed(l[..p] + [FreeSlot(begin, end - 1)] + l[p..], l, hc, begin, end)
  {
    var x := FreeSlot(begin, end - 1);
    InsertFreedValid(l, p, x, hc);
    InsertTicks(l, p, x);
  }

  lemma InsertTicks(l: seq<FreeSlot>, p: nat, x: FreeSlot)
    requires p <= |l|
    ensures forall t :: FreeAt(l[..p] + [x] + l[p..], t) <==> FreeAt(l, t) || InFree(x, t)
  {
    assert l == l[..p] + l[p..];
    forall t ensures FreeAt(l[..p] + [x] + l[p..], t) <==> FreeAt(l, t) || InFree(x, t) {
      FreeAtSplice(l[..p], x, l[p..], t);
      FreeAtConcat(l[..p], l[p..], t);
    }
  }

  lemma InsertFreedValid(l: seq<FreeSlot>, p: nat, x: FreeSlot, hc: nat)
    requires FreeListValid(l, hc) && p <= |l| && x.start <= x.last < hc
    requires p > 0 ==> l[p - 1].last + 1 < x.start
    requires p < |l| ==> x.last + 1 < l[p].start
    ensures FreeListValid(l[..p] + [x] + l[p..], hc)
  {
    ValidPieces(l, p, p, hc);
    ValidSplice(l[..p], x, l[p..], hc);
  }

  /** Extending slot p up to end - 1 when it ends right before begin. */
  lemma ExtendFreedAfter(l: seq<FreeSlot>, p: nat, begin: nat, end: nat, hc: nat)
    requires FreeListValid(l, hc) && p < |l| && begin < end <= hc
    requires l[p].last + 1 == begin
    requires p + 1 < |l| ==> end < l[p + 1].start
    ensures Freed(l[p := FreeSlot(l[p].start, end - 1)], l, hc, begin, end)
  {
    SwapFreed(l, p, FreeSlot(l[p].start, end - 1), begin, end, hc);
  }

  /** Extending slot p down to begin when it starts right at end. */
  lemma ExtendFreedBefore(l: seq<FreeSlot>, p: nat, begin: nat, end: nat, hc: nat)
    requires FreeListValid(l, hc) && p < |l| && begin < end <= hc
    requires l[p].start == end
    requires p > 0 ==> l[p - 1].last + 1 < begin
    ensures Freed(l[p := FreeSlot(begin, l[p].last)], l, hc, begin, end)
  {
    SwapFreed(l, p, FreeSlot(begin, l[p].last), begin, end, hc);
  }

  /** Replacing slot p by a wider slot x that keeps its distance to the neighbours adds x's extra ticks. */
  lemma SwapFreed(l: seq<FreeSlot>, p: nat, x: FreeSlot, begin: nat, end: nat, hc: nat)
    requires FreeListValid(l, hc) && p < |l| && x.start <= x.last < hc
    requires p > 0 ==> l[p - 1].last + 1 < x.start
    requires p + 1 < |l| ==> x.last + 1 < l[p + 1].start
    requires forall t :: InFree(x, t) <==> InFree(l[p], t) || begin <= t < end
    ensures Freed(l[p := x], l, hc, begin, end)
  {
    var a, c := l[..p], l[p + 1..];
    assert l == a + [l[p]] + c;
    assert l[p := x] == a + [x] + c;
    ValidPieces(l, p, p + 1, hc);
    ValidSplice(a, x, c, hc);
    forall t ensures FreeAt(a + [x] + c, t) <==> FreeAt(l, t) || begin <= t < end {
      FreeAtSplice(a, x, c, t);
      FreeAtSplice(a, l[p], c, t);
    }
  }

  /** Merging slots p and p + 1 when [begin, end) is exactly the gap between them. */
  lemma MergeFreed(l: seq<FreeSlot>, p: nat, begin: nat, end: nat, hc: nat)
    requires FreeListValid(l, hc) && p + 1 < |l| && begin < end <= hc
    requires l[p].last + 1 == begin && l[p + 1].start == end
    ensures Freed(l[..p] + [FreeSlot(l[p].start, l[p + 1].last)] + l[p + 2..], l, hc, begin, end)
  {
    var x := FreeSlot(l[p].start, l[p + 1].last);
    var a, c := l[..p], l[p + 2..];
    assert l == a + [l[p]] + ([l[p + 1]] + c);
    ValidPieces(l, p, p + 2, hc);
    assert c != [] ==> l[p + 1].last + 1 < c[0].start;
    ValidSplice(a, x, c, hc);
    forall t ensures FreeAt(a + [x] + c, t) <==> FreeAt(l, t) || begin <= t < end {
      FreeAtSplice(a, x, c, t);
      FreeAtSplice(a, l[p], [l[p + 1]] + c, t);
      FreeAtConcat([l[p + 1]], c, t);
      FreeAtSingle(l[p + 1], t);
    }
  }

  /** Reserving [start, next) and handing the same ticks back restores the free list exactly. */
  lemma CarveThenFreeRestores(l: seq<FreeSlot>, k: nat, start: nat, next: nat, hc: nat, back: seq<FreeSlot>)
    requires FreeListValid(l, hc) && k < |l| && Contains(l[k], start, next) && start < next
    requires FreeListValid(back, hc)
    requires forall t :: FreeAt(back, t) <==> FreeAt(CarveAt(l, k, start, next), t) || start <= t < next
    ensures back == l
  {
    CarveAtTicks(l, k, start, next, hc);
    forall t ensures FreeAt(back, t) <==> FreeAt(l, t) {
      if start <= t < next {
        assert InFree(l[k], t);
      }
    }
    FreeListCanonical(back, l, hc);
  }
}
