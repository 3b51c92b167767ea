/**
 * The placement strategies of src/solver/Placement.cpp.  ASAP and Balanced search every frame of
 * one hyper-cycle on the unchanged list before they reserve anything; Hermes reserves a single
 * transmission in the latest suitable free slot.  Each strategy is stated as a function of the
 * list state (its outcome) and each method is proved to produce that outcome; the lemmas show
 * that on a consistent list every reservation a strategy makes is accepted and the list stays
 * consistent.
 */
module Placement {
  import opened Optional
  import opened Slots
  import opened UtilFunctions
  import opened UtilizationList
  import opened Graph

  /** ConfigPlacementTypes. */
  datatype PlacementType = Asap | Balanced | Hermes

  /** Whether placement succeeded, and the list state it leaves behind. */
  datatype Outcome = Outcome(ok: bool, state: ListState)

  lemma MulMono(a: nat, b: nat, c: nat)
    requires a <= b
    ensures a * c <= b * c
  {
    assert b * c - a * c == (b - a) * c;
  }

  lemma FramesFit(hc: nat, period: nat)
    requires period > 0
    ensures (hc / period) * period <= hc
  {
  }

  // ---------------------------------------------------------------------------
  // The frames of one hyper-cycle

  /** The search for frame i of n: released at offset + i * period, due at the end of its period. */
  function FrameSearch(free: seq<seq<FreeSlot>>, path: seq<nat>, frameSize: nat, period: nat, offset: nat, n: nat, i: nat): seq<Request>
    requires PathFits(free, path) && frameSize <= SizeMax && i < n && n * period <= SizeMax
  {
    MulMono(i + 1, n, period);
    Search(free, path, frameSize, offset + i * period, (i + 1) * period)
  }

  /** The searches for frames 0..n-1, all on the same (unchanged) free lists. */
  function OffsetFrames(free: seq<seq<FreeSlot>>, path: seq<nat>, frameSize: nat, period: nat, offset: nat, n: nat): (frames: seq<seq<Request>>)
    requires PathFits(free, path) && frameSize <= SizeMax && n * period <= SizeMax
    ensures |frames| == n
  {
    seq(n, i requires 0 <= i < n => FrameSearch(free, path, frameSize, period, offset, n, i))
  }

  /** The all_of of the placement: every frame found a transmission opportunity on every hop. */
  predicate AllFound(frames: seq<seq<Request>>) {
    forall i :: 0 <= i < |frames| ==> frames[i] != []
  }

  /** The requests of all frames in the order the nested for_each reserves them. */
  function Flatten(frames: seq<seq<Request>>): seq<Request> {
    if frames == [] then [] else Flatten(frames[..|frames| - 1]) + frames[|frames| - 1]
  }

  lemma {:induction false} FlattenMembers(frames: seq<seq<Request>>)
    ensures forall x :: x in Flatten(frames) <==> exists i :: 0 <= i < |frames| && x in frames[i]
  {
    if frames != [] {
      var init := frames[..|frames| - 1];
      FlattenMembers(init);
      forall x ensures x in Flatten(frames) <==> exists i :: 0 <= i < |frames| && x in frames[i] {
        if x in Flatten(init) {
          var i :| 0 <= i < |init| && x in init[i];
          assert frames[i] == init[i];
        }
        if exists i :: 0 <= i < |frames| && x in frames[i] {
          var i :| 0 <= i < |frames| && x in frames[i];
          if i < |init| {
            assert init[i] == frames[i];
          }
        }
      }
    }
  }

  /** Every request of a search is on the hop of the path at its position. */
  lemma SearchOnPath(free: seq<seq<FreeSlot>>, path: seq<nat>, frameSize: nat, release: nat, deadline: nat)
    requires PathFits(free, path) && InSizeT(frameSize, deadline)
    ensures var r := Search(free, path, frameSize, release, deadline);
            (r == [] || |r| == |path|) && forall k :: 0 <= k < |r| ==> r[k].queue == path[k]
  {
    var tx := TransmissionDelay(frameSize);
    var eff, effEnd := EffectiveDeadline(deadline, tx), EffectiveEnd(deadline, tx);
    if SearchFrom(free, path, tx, release, eff, effEnd).Some? {
      SearchFromHops(free, path, tx, release, eff, effEnd, SearchFrom(free, path, tx, release, eff, effEnd).value);
    }
  }

  /** The requests of frame i are on the hops of the path, in order. */
  lemma FrameOnPath(free: seq<seq<FreeSlot>>, path: seq<nat>, frameSize: nat, period: nat, offset: nat, n: nat, i: nat)
    requires PathFits(free, path) && frameSize <= SizeMax && i < n && n * period <= SizeMax
    ensures var r := FrameSearch(free, path, frameSize, period, offset, n, i);
            (r == [] || |r| == |path|) && forall k :: 0 <= k < |r| ==> r[k].queue == path[k]
  {
    MulMono(i + 1, n, period);
    SearchOnPath(free, path, frameSize, offset + i * period, (i + 1) * period);
  }

  /** All requests of a set of frames are on links of the path. */
  lemma FramesOnPath(free: seq<seq<FreeSlot>>, path: seq<nat>, frameSize: nat, period: nat, offset: nat, n: nat)
    requires PathFits(free, path) && frameSize <= SizeMax && n * period <= SizeMax
    ensures forall x :: x in Flatten(OffsetFrames(free, path, frameSize, period, offset, n)) ==> x.queue < |free|
  {
    var frames := OffsetFrames(free, path, frameSize, period, offset, n);
    FlattenMembers(frames);
    forall x | x in Flatten(frames) ensures x.queue < |free| {
      var i :| 0 <= i < |frames| && x in frames[i];
      FrameOnPath(free, path, frameSize, period, offset, n, i);
      var k :| 0 <= k < |frames[i]| && frames[i][k] == x;
    }
  }

  /** A list state with one list of each kind per queue. */
  predicate Shaped(st: ListState) {
    |st.reserved| == |st.free| && |st.arrivals| == |st.free|
  }

  lemma FitsOnLinks(st: ListState, reqs: seq<Request>)
    requires Shaped(st) && forall x :: x in reqs ==> x.queue < |st.free|
    ensures RequestsFit(st, reqs)
  {
    assert forall k :: 0 <= k < |reqs| ==> reqs[k] in reqs;
  }

  /** Placing frames: all found, then every request reserved; otherwise nothing changes. */
  function PlaceFrames(st: ListState, frames: seq<seq<Request>>, flow: nat, config: nat): Outcome
    requires Shaped(st) && forall x :: x in Flatten(frames) ==> x.queue < |st.free|
  {
    FitsOnLinks(st, Flatten(frames));
    if AllFound(frames) then Outcome(true, ReserveAll(st, Flatten(frames), flow, config))
    else Outcome(false, st)
  }

  /** The conditions under which a flow can be placed: sizes and times in size_t, a positive period. */
  predicate Placeable(st: ListState, path: seq<nat>, frameSize: nat, period: nat, hc: nat) {
    Shaped(st) && PathFits(st.free, path) && frameSize <= SizeMax && period > 0 && hc <= SizeMax
  }

  /** The searches of placeConfigASAP: frame i released at i * period, one frame per period of the hyper-cycle. */
  function AsapFrames(st: ListState, path: seq<nat>, frameSize: nat, period: nat, hc: nat): (frames: seq<seq<Request>>)
    requires Placeable(st, path, frameSize, period, hc)
    ensures (hc / period) * period <= hc
    ensures RequestsFit(st, Flatten(frames))
  {
    FramesFit(hc, period);
    FramesOnPath(st.free, path, frameSize, period, 0, hc / period);
    FitsOnLinks(st, Flatten(OffsetFrames(st.free, path, frameSize, period, 0, hc / period)));
    OffsetFrames(st.free, path, frameSize, period, 0, hc / period)
  }

  /** placeConfigASAP as a function of the list state. */
  function AsapOutcome(st: ListState, path: seq<nat>, frameSize: nat, period: nat, hc: nat, flow: nat, config: nat): Outcome
    requires Placeable(st, path, frameSize, period, hc)
  {
    var frames := AsapFrames(st, path, frameSize, period, hc);
    FramesOnPath(st.free, path, frameSize, period, 0, hc / period);
    PlaceFrames(st, frames, flow, config)
  }

  // ---------------------------------------------------------------------------
  // Balanced

  /** One offset's frames, or the empty vector when some frame does not fit. */
  function OffsetOption(free: seq<seq<FreeSlot>>, path: seq<nat>, frameSize: nat, period: nat, offset: nat, n: nat): seq<seq<Request>>
    requires PathFits(free, path) && frameSize <= SizeMax && n * period <= SizeMax
  {
    var frames := OffsetFrames(free, path, frameSize, period, offset, n);
    if AllFound(frames) then frames else []
  }

  /** reserved_slots of placeConfigBalanced: one option per sub-cycle offset of the period. */
  function BalancedOptions(free: seq<seq<FreeSlot>>, path: seq<nat>, frameSize: nat, period: nat, subCycle: nat, n: nat): (options: seq<seq<seq<Request>>>)
    requires PathFits(free, path) && frameSize <= SizeMax && n * period <= SizeMax && subCycle > 0
    ensures |options| == period / subCycle
    ensures forall s :: 0 <= s < |options| ==> options[s] == OffsetOption(free, path, frameSize, period, s * subCycle, n)
  {
    seq(period / subCycle, s requires 0 <= s < period / subCycle => OffsetOption(free, path, frameSize, period, s * subCycle, n))
  }

  /** size_t subtraction of two times. */
  function SizeTDiff(a: nat, b: nat): (r: nat)
    ensures b <= a <= b + SizeMax ==> r == a - b
  {
    (a - b) % (SizeMax + 1)
  }

  /** get_frame_e2e_time: from the first hop's arrival to the end of the last transmission. */
  function FrameE2E(frame: seq<Request>): nat {
    if frame == [] then 0 else SizeTDiff(frame[|frame| - 1].next, frame[0].arrival)
  }

  /** The largest of a list of times (0 for the empty list). */
  function Largest(xs: seq<nat>): (m: nat)
    ensures forall i :: 0 <= i < |xs| ==> xs[i] <= m
    ensures xs != [] ==> exists i :: 0 <= i < |xs| && xs[i] == m
  {
    if xs == [] then 0
    else
      var init := xs[..|xs| - 1];
      var m := Largest(init);
      assert forall i :: 0 <= i < |init| ==> init[i] == xs[i];
      Max(m, xs[|xs| - 1])
  }

  /** The end-to-end time of the slowest frame of an option (max_element). */
  function SlowestE2E(option: seq<seq<Request>>): (m: nat)
    ensures forall i :: 0 <= i < |option| ==> FrameE2E(option[i]) <= m
    ensures option != [] ==> exists i :: 0 <= i < |option| && FrameE2E(option[i]) == m
  {
    var times := seq(|option|, i requires 0 <= i < |option| => FrameE2E(option[i]));
    assert forall i :: 0 <= i < |option| ==> times[i] == FrameE2E(option[i]);
    Largest(times)
  }

  /**
   * min_element over the valid (non-empty) options from index lo on: the first option with the
   * smallest score.
   */
  function BestOption<T>(options: seq<seq<T>>, score: seq<T> -> nat, lo: nat): (b: Option<nat>)
    requires lo <= |options|
    ensures b.None? <==> forall s :: lo <= s < |options| ==> options[s] == []
    ensures b.Some? ==> lo <= b.value < |options| && options[b.value] != []
    ensures b.Some? ==> forall s :: lo <= s < |options| && options[s] != [] ==> score(options[b.value]) <= score(options[s])
    ensures b.Some? ==> forall s :: lo <= s < b.value && options[s] != [] ==> score(options[b.value]) < score(options[s])
    decreases |options| - lo
  {
    if lo == |options| then None
    else
      var rest := BestOption(options, score, lo + 1);
      if options[lo] == [] then rest
      else if rest.None? || score(options[lo]) <= score(options[rest.value]) then Some(lo)
      else rest
  }

  /** placeConfigBalanced as a function of the list state. */
  function BalancedOutcome(st: ListState, path: seq<nat>, frameSize: nat, period: nat, hc: nat, subCycle: nat, flow: nat, config: nat): Outcome
    requires Placeable(st, path, frameSize, period, hc) && subCycle > 0
  {
    FramesFit(hc, period);
    var options := BalancedOptions(st.free, path, frameSize, period, subCycle, hc / period);
    match BestOption(options, SlowestE2E, 0)
    case None => Outcome(false, st)
    case Some(b) =>
      OptionOnPath(st.free, path, frameSize, period, subCycle, hc / period, b);
      PlaceFrames(st, options[b], flow, config)
  }

  lemma OptionOnPath(free: seq<seq<FreeSlot>>, path: seq<nat>, frameSize: nat, period: nat, subCycle: nat, n: nat, b: nat)
    requires PathFits(free, path) && frameSize <= SizeMax && n * period <= SizeMax && subCycle > 0
    requires b < period / subCycle
    ensures forall x :: x in Flatten(BalancedOptions(free, path, frameSize, period, subCycle, n)[b]) ==> x.queue < |free|
  {
    var offset := b * subCycle;
    var option := BalancedOptions(free, path, frameSize, period, subCycle, n)[b];
    assert option == OffsetOption(free, path, frameSize, period, offset, n);
    FramesOnPath(free, path, frameSize, period, offset, n);
    if option == [] {
      assert Flatten(option) == [];
    }
  }

  // ---------------------------------------------------------------------------
  // Hermes

  /** hermesPlacement's filter: the slot starts by the latest offset and is longer than tx. */
  predicate HermesCandidate(slot: FreeSlot, latest: nat, tx: nat)
    requires slot.start <= SizeMax && slot.last <= SizeMax
  {
    slot.start <= latest && WrapSub(slot.last, slot.start) >= tx
  }

  /** max_element by start over the candidates: the first candidate with the latest start. */
  function LatestCandidate(l: seq<FreeSlot>, latest: nat, tx: nat): (r: Option<nat>)
    requires SizeTFree(l)
    ensures r.None? <==> forall k :: 0 <= k < |l| ==> !HermesCandidate(l[k], latest, tx)
    ensures r.Some? ==> r.value < |l| && HermesCandidate(l[r.value], latest, tx)
    ensures r.Some? ==> forall k :: 0 <= k < |l| && HermesCandidate(l[k], latest, tx) ==> l[k].start <= l[r.value].start
    ensures r.Some? ==> forall k :: 0 <= k < r.value && HermesCandidate(l[k], latest, tx) ==> l[k].start < l[r.value].start
  {
    if l == [] then None
    else
      var rest := LatestCandidate(l[1..], latest, tx);
      assert forall k :: 1 <= k < |l| ==> l[k] == l[1..][k - 1];
      if !HermesCandidate(l[0], latest, tx) then
        (if rest.None? then None else Some(rest.value + 1))
      else if rest.None? || l[1..][rest.value].start <= l[0].start then Some(0)
      else Some(rest.value + 1)
  }

  /** The request hermesPlacement makes: sent as late as the slot and the latest offset allow. */
  function HermesRequest(slot: FreeSlot, queue: nat, latest: nat, tx: nat): Request
    requires slot.last <= SizeMax && latest <= SizeMax && tx <= SizeMax
  {
    var start := Min(WrapAdd(WrapSub(slot.last, tx), 1), latest);
    Request(queue, start, WrapAdd(start, tx), start)
  }

  /** hermesPlacement as a function of the list state (a candidate slot must exist). */
  function HermesOutcome(st: ListState, queue: nat, latest: nat, frameSize: nat, flow: nat, config: nat): Outcome
    requires Shaped(st) && queue < |st.free| && SizeTFree(st.free[queue]) && latest <= SizeMax && frameSize <= SizeMax
    requires LatestCandidate(st.free[queue], latest, TransmissionDelay(frameSize)).Some?
  {
    var tx := TransmissionDelay(frameSize);
    var slot := st.free[queue][LatestCandidate(st.free[queue], latest, tx).value];
    var req := HermesRequest(slot, queue, latest, tx);
    Outcome(ReserveSucceeds(st, req), ReserveState(st, req, flow, config))
  }

  /**
   * On a list of non-empty free slots inside size_t, a transmission of at least one tick lies
   * inside the chosen slot, so hermesPlacement always succeeds.
   */
  lemma HermesAlwaysReserves(st: ListState, queue: nat, latest: nat, frameSize: nat, flow: nat, config: nat)
    requires Shaped(st) && queue < |st.free| && WellFormedFree(st.free[queue], SizeMax) && latest <= SizeMax
    requires 125 <= frameSize <= SizeMax
    requires LatestCandidate(st.free[queue], latest, TransmissionDelay(frameSize)).Some?
    ensures HermesOutcome(st, queue, latest, frameSize, flow, config).ok
  {
    var tx := TransmissionDelay(frameSize);
    var k := LatestCandidate(st.free[queue], latest, tx).value;
    var slot := st.free[queue][k];
    assert slot.start <= slot.last < SizeMax;
    assert WrapSub(slot.last, tx) == slot.last - tx;
    var req := HermesRequest(slot, queue, latest, tx);
    assert req.start + tx <= slot.last + 1 && slot.start <= req.start;
    assert req.next == req.start + tx;
  }

  // ---------------------------------------------------------------------------
  // Placement keeps the list consistent

  /** Each request ends before any later one starts. */
  predicate Chronological(reqs: seq<Request>) {
    forall j, k :: 0 <= j < k < |reqs| ==> reqs[j].next <= reqs[k].start
  }

  /** Every request is non-empty, on a queue of the state, and covers only ticks free there. */
  ghost predicate OnFreeTicks(st: ListState, reqs: seq<Request>) {
    forall x :: x in reqs ==>
      x.queue < |st.free| && x.start < x.next &&
      forall t :: x.start <= t < x.next ==> FreeAt(st.free[x.queue], t)
  }

  /** Every queue of the state tiles the hyper-cycle. */
  ghost predicate TiledState(st: ListState, hc: nat) {
    Shaped(st) && forall q :: 0 <= q < |st.free| ==> Tiles(st.free[q], st.reserved[q], hc)
  }

  /** Every reserveSlot call of a run returns true. */
  predicate AllReserved(st: ListState, reqs: seq<Request>, flow: nat, config: nat)
    requires RequestsFit(st, reqs)
    decreases |reqs|
  {
    reqs == [] ||
    (ReserveSucceeds(st, reqs[0]) && AllReserved(ReserveState(st, reqs[0], flow, config), reqs[1..], flow, config))
  }

  /**
   * Reserving requests that cover free ticks and never overlap each other: every call succeeds
   * and every queue stays tiled.
   */
  lemma {:induction false} ReserveAllKeepsTiles(st: ListState, reqs: seq<Request>, hc: nat, flow: nat, config: nat)
    requires TiledState(st, hc) && RequestsFit(st, reqs) && OnFreeTicks(st, reqs) && Chronological(reqs)
    ensures AllReserved(st, reqs, flow, config) && TiledState(ReserveAll(st, reqs, flow, config), hc)
    decreases |reqs|
  {
    if reqs != [] {
      var x := reqs[0];
      var q := x.queue;
      var f := st.free[q];
      assert x in reqs;
      FreeRunInOneSlot(f, hc, x.start, x.next);
      var k := FindContaining(f, x.start, x.next).value;
      var s := ReservedSlot(x.start, x.next, flow, config);
      ReserveKeepsTiles(f, st.reserved[q], hc, s);
      CarveAtTicks(f, k, x.start, x.next, hc);
      var st' := ReserveState(st, x, flow, config);
      assert TiledState(st', hc);
      var rest := reqs[1..];
      assert OnFreeTicks(st', rest) by {
        forall y | y in rest
          ensures y.queue < |st'.free| && y.start < y.next
          ensures forall t :: y.start <= t < y.next ==> FreeAt(st'.free[y.queue], t)
        {
          var m :| 0 <= m < |rest| && rest[m] == y;
          assert reqs[m + 1] == y && y in reqs;
          assert x.next <= y.start;
        }
      }
      assert Chronological(rest) by {
        forall j, m | 0 <= j < m < |rest| ensures rest[j].next <= rest[m].start {
          assert rest[j] == reqs[j + 1] && rest[m] == reqs[m + 1];
        }
      }
      ReserveAllKeepsTiles(st', rest, hc, flow, config);
    }
  }

  /** Hops of a frame: each starts after it arrives, and arrives after the previous hop ends. */
  lemma {:induction false} ChainChronological(r: seq<Request>)
    requires forall k :: 0 <= k < |r| ==> r[k].arrival <= r[k].start < r[k].next
    requires forall k :: 0 <= k < |r| - 1 ==> r[k].next <= r[k + 1].arrival
    ensures Chronological(r)
    ensures forall k :: 0 <= k < |r| ==> r[0].arrival <= r[k].start
    decreases |r|
  {
    if |r| > 1 {
      var rest := r[1..];
      assert forall k :: 0 <= k < |rest| ==> rest[k] == r[k + 1];
      ChainChronological(rest);
      forall j, k | 0 <= j < k < |r| ensures r[j].next <= r[k].start {
        assert rest[k - 1] == r[k];
        if j > 0 {
          assert rest[j - 1] == r[j];
        }
      }
      forall k | 0 <= k < |r| ensures r[0].arrival <= r[k].start {
        if k > 0 {
          assert rest[k - 1] == r[k];
        }
      }
    }
  }

  lemma InsideFreeTicks(l: seq<FreeSlot>, start: nat, next: nat)
    requires InsideFree(l, start, next)
    ensures forall t :: start <= t < next ==> FreeAt(l, t)
  {
    var k :| 0 <= k < |l| && l[k].start <= start && next <= l[k].last + 1;
    forall t | start <= t < next ensures FreeAt(l, t) {
      assert InFree(l[k], t);
    }
  }

  /**
   * What a successful search found, for frames of at least 125 bytes: its hops are
   * chronological, each covers free ticks of its queue between the release and the deadline,
   * and its end-to-end time runs from the release to the end of the last hop.
   */
  lemma FoundRequests(free: seq<seq<FreeSlot>>, path: seq<nat>, frameSize: nat, release: nat, deadline: nat)
    requires PathFits(free, path) && 125 <= frameSize <= SizeMax && 1 <= deadline <= SizeMax
    requires Search(free, path, frameSize, release, deadline) != []
    ensures var r := Search(free, path, frameSize, release, deadline);
            Chronological(r) &&
            (forall x :: x in r ==>
               release <= x.start < x.next < deadline && x.queue < |free| &&
               forall t :: x.start <= t < x.next ==> FreeAt(free[x.queue], t)) &&
            FrameE2E(r) == r[|r| - 1].next - release
  {
    var tx := TransmissionDelay(frameSize);
    var r := Search(free, path, frameSize, release, deadline);
    assert path != [];
    if deadline <= tx {
      ShortDeadlineFindsNothing(free[path[0]], release, tx, deadline);
      assert false;
    } else {
      SearchRequests(free, path, frameSize, release, deadline);
      forall k | 0 <= k < |r| ensures r[k].arrival <= r[k].start < r[k].next {
        assert HopOk(free, path[k], r[k], tx, deadline - PropagationDelay);
      }
      ChainChronological(r);
      forall x | x in r
        ensures release <= x.start < x.next < deadline && x.queue < |free|
        ensures forall t :: x.start <= t < x.next ==> FreeAt(free[x.queue], t)
      {
        var k :| 0 <= k < |r| && r[k] == x;
        assert HopOk(free, path[k], r[k], tx, deadline - PropagationDelay);
        InsideFreeTicks(free[x.queue], x.start, x.next);
      }
      assert r[|r| - 1] in r;
    }
  }

  /** A frame the search found lies in its own period: released at offset + i * period, done before (i + 1) * period. */
  lemma FoundFrame(free: seq<seq<FreeSlot>>, path: seq<nat>, frameSize: nat, period: nat, offset: nat, n: nat, i: nat)
    requires PathFits(free, path) && 125 <= frameSize <= SizeMax && i < n && n * period <= SizeMax && period > 0
    requires FrameSearch(free, path, frameSize, period, offset, n, i) != []
    ensures var r := FrameSearch(free, path, frameSize, period, offset, n, i);
            Chronological(r) &&
            (forall x :: x in r ==>
               i * period <= x.start < x.next <= (i + 1) * period && x.queue < |free| &&
               forall t :: x.start <= t < x.next ==> FreeAt(free[x.queue], t)) &&
            FrameE2E(r) == r[|r| - 1].next - (offset + i * period)
  {
    var lo, hi := i * period, (i + 1) * period;
    MulMono(i + 1, n, period);
    MulMono(1, i + 1, period);
    assert FrameSearch(free, path, frameSize, period, offset, n, i) == Search(free, path, frameSize, offset + lo, hi);
    FoundRequests(free, path, frameSize, offset + lo, hi);
  }

  /** Frames that each lie in their own period, in period order, are chronological as a whole. */
  lemma {:induction false} FlattenChronological(frames: seq<seq<Request>>, period: nat)
    requires forall i :: 0 <= i < |frames| ==> Chronological(frames[i])
    requires forall i, x :: 0 <= i < |frames| && x in frames[i] ==> i * period <= x.start && x.next <= (i + 1) * period
    ensures Chronological(Flatten(frames))
    ensures forall x :: x in Flatten(frames) ==> x.next <= |frames| * period
  {
    if frames != [] {
      var n := |frames| - 1;
      var init := frames[..n];
      assert forall i :: 0 <= i < n ==> init[i] == frames[i];
      FlattenChronological(init, period);
      var a: seq<Request>, b: seq<Request> := Flatten(init), frames[n];
      assert Flatten(frames) == a + b;
      forall j, k | 0 <= j < k < |a + b| ensures (a + b)[j].next <= (a + b)[k].start {
        if k < |a| {
          assert (a + b)[j] == a[j] && (a + b)[k] == a[k];
        } else if j >= |a| {
          assert (a + b)[j] == b[j - |a|] && (a + b)[k] == b[k - |a|];
        } else {
          assert (a + b)[j] == a[j] && a[j] in a;
          assert (a + b)[k] == b[k - |a|] && b[k - |a|] in b;
        }
      }
      forall x | x in a + b ensures x.next <= |frames| * period {
        if x in a {
          MulMono(n, n + 1, period);
        }
      }
    }
  }

  /**
   * On a consistent list, reserving the frames that all searches found (frames of at least 125
   * bytes) succeeds at every call and keeps every queue tiled.
   */
  lemma FoundFramesKeepTiles(st: ListState, path: seq<nat>, frameSize: nat, period: nat, offset: nat, n: nat, hc: nat, flow: nat, config: nat)
    requires TiledState(st, hc) && PathFits(st.free, path) && 125 <= frameSize <= SizeMax && period > 0 && n * period <= SizeMax
    requires AllFound(OffsetFrames(st.free, path, frameSize, period, offset, n))
    ensures var reqs := Flatten(OffsetFrames(st.free, path, frameSize, period, offset, n));
            RequestsFit(st, reqs) && AllReserved(st, reqs, flow, config) && TiledState(ReserveAll(st, reqs, flow, config), hc)
  {
    var frames := OffsetFrames(st.free, path, frameSize, period, offset, n);
    forall i | 0 <= i < n
      ensures Chronological(frames[i])
      ensures forall x: Request :: x in frames[i] ==> i * period <= x.start && x.next <= (i + 1) * period
    {
      assert frames[i] == FrameSearch(st.free, path, frameSize, period, offset, n, i) && frames[i] != [];
      FoundFrame(st.free, path, frameSize, period, offset, n, i);
    }
    FlattenChronological(frames, period);
    FlattenMembers(frames);
    var reqs := Flatten(frames);
    assert OnFreeTicks(st, reqs) by {
      forall x | x in reqs
        ensures x.queue < |st.free| && x.start < x.next
        ensures forall t :: x.start <= t < x.next ==> FreeAt(st.free[x.queue], t)
      {
        var i :| 0 <= i < |frames| && x in frames[i];
        assert frames[i] == FrameSearch(st.free, path, frameSize, period, offset, n, i) && frames[i] != [];
        FoundFrame(st.free, path, frameSize, period, offset, n, i);
      }
    }
    FitsOnLinks(st, reqs);
    ReserveAllKeepsTiles(st, reqs, hc, flow, config);
  }

  /** placeConfigASAP keeps a consistent list consistent, and when it succeeds every reservation was accepted. */
  lemma AsapKeepsTiles(st: ListState, path: seq<nat>, frameSize: nat, period: nat, hc: nat, flow: nat, config: nat)
    requires Placeable(st, path, frameSize, period, hc) && TiledState(st, hc) && frameSize >= 125
    ensures TiledState(AsapOutcome(st, path, frameSize, period, hc, flow, config).state, hc)
    ensures AsapOutcome(st, path, frameSize, period, hc, flow, config).ok ==>
              AllFound(AsapFrames(st, path, frameSize, period, hc)) &&
              AllReserved(st, Flatten(AsapFrames(st, path, frameSize, period, hc)), flow, config)
  {
    FramesFit(hc, period);
    var n := hc / period;
    var frames := AsapFrames(st, path, frameSize, period, hc);
    FramesOnPath(st.free, path, frameSize, period, 0, n);
    assert AsapOutcome(st, path, frameSize, period, hc, flow, config) == PlaceFrames(st, frames, flow, config);
    if AllFound(frames) {
      FoundFramesKeepTiles(st, path, frameSize, period, 0, n, hc, flow, config);
    }
  }

  /** placeConfigBalanced keeps a consistent list consistent, and when it succeeds every reservation was accepted. */
  lemma BalancedKeepsTiles(st: ListState, path: seq<nat>, frameSize: nat, period: nat, hc: nat, subCycle: nat, flow: nat, config: nat)
    requires Placeable(st, path, frameSize, period, hc) && subCycle > 0 && TiledState(st, hc) && frameSize >= 125
    ensures TiledState(BalancedOutcome(st, path, frameSize, period, hc, subCycle, flow, config).state, hc)
  {
    FramesFit(hc, period);
    var n := hc / period;
    var options := BalancedOptions(st.free, path, frameSize, period, subCycle, n);
    var best := BestOption(options, SlowestE2E, 0);
    if best.Some? {
      var b := best.value;
      OptionKeepsTiles(st, path, frameSize, period, subCycle, n, b, hc, flow, config);
      OptionOnPath(st.free, path, frameSize, period, subCycle, n, b);
      assert BalancedOutcome(st, path, frameSize, period, hc, subCycle, flow, config) == PlaceFrames(st, options[b], flow, config);
    } else {
      assert BalancedOutcome(st, path, frameSize, period, hc, subCycle, flow, config) == Outcome(false, st);
    }
  }

  /** A non-empty option of Balanced holds frames found at its offset, and reserving them keeps the list tiled. */
  lemma OptionKeepsTiles(st: ListState, path: seq<nat>, frameSize: nat, period: nat, subCycle: nat, n: nat, b: nat, hc: nat, flow: nat, config: nat)
    requires TiledState(st, hc) && PathFits(st.free, path) && 125 <= frameSize <= SizeMax && period > 0 && n * period <= SizeMax
    requires subCycle > 0 && b < period / subCycle
    requires BalancedOptions(st.free, path, frameSize, period, subCycle, n)[b] != []
    ensures var option := BalancedOptions(st.free, path, frameSize, period, subCycle, n)[b];
            AllFound(option) && RequestsFit(st, Flatten(option)) &&
            TiledState(ReserveAll(st, Flatten(option), flow, config), hc)
  {
    var offset := b * subCycle;
    assert BalancedOptions(st.free, path, frameSize, period, subCycle, n)[b] == OffsetOption(st.free, path, frameSize, period, offset, n);
    FoundFramesKeepTiles(st, path, frameSize, period, offset, n, hc, flow, config);
  }

  /** Each frame found has one request per hop, so a successful ASAP adds frames x hops reservations. */
  lemma {:induction false} FlattenSize(free: seq<seq<FreeSlot>>, path: seq<nat>, frameSize: nat, period: nat, offset: nat, n: nat)
    requires PathFits(free, path) && frameSize <= SizeMax && n * period <= SizeMax
    requires AllFound(OffsetFrames(free, path, frameSize, period, offset, n))
    ensures |Flatten(OffsetFrames(free, path, frameSize, period, offset, n))| == n * |path|
    decreases n
  {
    if n > 0 {
      var frames := OffsetFrames(free, path, frameSize, period, offset, n);
      var init := OffsetFrames(free, path, frameSize, period, offset, n - 1);
      MulMono(n - 1, n, period);
      forall i | 0 <= i < n - 1 ensures init[i] == frames[i] {
        MulMono(i + 1, n - 1, period);
      }
      assert frames[..n - 1] == init;
      FlattenSize(free, path, frameSize, period, offset, n - 1);
      FrameOnPath(free, path, frameSize, period, offset, n, n - 1);
      assert n * |path| == (n - 1) * |path| + |path|;
    }
  }

  /** Hermes on a consistent list (frames of at least 125 bytes) succeeds and keeps it consistent. */
  lemma HermesKeepsTiles(st: ListState, queue: nat, latest: nat, frameSize: nat, hc: nat, flow: nat, config: nat)
    requires TiledState(st, hc) && hc <= SizeMax && queue < |st.free| && latest <= SizeMax
    requires 125 <= frameSize <= SizeMax
    requires SizeTFree(st.free[queue]) && LatestCandidate(st.free[queue], latest, TransmissionDelay(frameSize)).Some?
    ensures HermesOutcome(st, queue, latest, frameSize, flow, config).ok
    ensures TiledState(HermesOutcome(st, queue, latest, frameSize, flow, config).state, hc)
  {
    var f := st.free[queue];
    assert WellFormedFree(f, SizeMax) by {
      assert Tiles(f, st.reserved[queue], hc);
    }
    HermesAlwaysReserves(st, queue, latest, frameSize, flow, config);
    var tx := TransmissionDelay(frameSize);
    var slot := f[LatestCandidate(f, latest, tx).value];
    var req := HermesRequest(slot, queue, latest, tx);
    assert WrapSub(slot.last, tx) == slot.last - tx;
    assert req.next == req.start + tx;
    ReserveKeepsTiles(f, st.reserved[queue], hc, ReservedSlot(req.start, req.next, flow, config));
  }

  // ---------------------------------------------------------------------------
  // The strategies on the utilization list

  lemma {:induction false} ReserveAllSnoc(st: ListState, reqs: seq<Request>, x: Request, flow: nat, config: nat)
    requires RequestsFit(st, reqs + [x])
    ensures RequestsFit(st, reqs) && QueuesExist(ReserveAll(st, reqs, flow, config), x.queue)
    ensures ReserveAll(st, reqs + [x], flow, config) == ReserveState(ReserveAll(st, reqs, flow, config), x, flow, config)
    decreases |reqs|
  {
    assert forall k :: 0 <= k < |reqs| ==> reqs[k] == (reqs + [x])[k];
    assert x == (reqs + [x])[|reqs|];
    if reqs == [] {
      assert [x][1..] == [];
    } else {
      var st' := ReserveState(st, reqs[0], flow, config);
      assert (reqs + [x])[1..] == reqs[1..] + [x];
      ReserveAllSnoc(st', reqs[1..], x, flow, config);
    }
  }

  /** The requests reserved so far by the nested for_each: whole frames 0..i-1, then j requests of frame i. */
  lemma DoneFits(st: ListState, frames: seq<seq<Request>>, i: nat, j: nat)
    requires Shaped(st) && forall x :: x in Flatten(frames) ==> x.queue < |st.free|
    requires i < |frames| && j <= |frames[i]|
    ensures RequestsFit(st, Flatten(frames[..i]) + frames[i][..j])
    ensures j < |frames[i]| ==> frames[i][j].queue < |st.free|
  {
    FlattenMembers(frames);
    FlattenMembers(frames[..i]);
    forall x | x in Flatten(frames[..i]) + frames[i][..j] ensures x.queue < |st.free| {
      if x in Flatten(frames[..i]) {
        var m :| 0 <= m < i && x in frames[..i][m];
        assert frames[..i][m] == frames[m];
      } else {
        assert x in frames[i];
      }
    }
    if j < |frames[i]| {
      assert frames[i][j] in frames[i];
    }
    FitsOnLinks(st, Flatten(frames[..i]) + frames[i][..j]);
  }

  /** One more request of frame i goes through reserveSlot after those reserved so far. */
  lemma ReserveFrameStep(st0: ListState, frames: seq<seq<Request>>, i: nat, j: nat, flow: nat, config: nat)
    requires Shaped(st0) && forall x :: x in Flatten(frames) ==> x.queue < |st0.free|
    requires i < |frames| && j < |frames[i]|
    ensures frames[i][j].queue < |st0.free|
    ensures RequestsFit(st0, Flatten(frames[..i]) + frames[i][..j])
    ensures RequestsFit(st0, Flatten(frames[..i]) + frames[i][..j + 1])
    ensures ReserveAll(st0, Flatten(frames[..i]) + frames[i][..j + 1], flow, config)
         == ReserveState(ReserveAll(st0, Flatten(frames[..i]) + frames[i][..j], flow, config), frames[i][j], flow, config)
  {
    var done := Flatten(frames[..i]) + frames[i][..j];
    assert Flatten(frames[..i]) + frames[i][..j + 1] == done + [frames[i][j]];
    DoneFits(st0, frames, i, j + 1);
    DoneFits(st0, frames, i, j);
    ReserveAllSnoc(st0, done, frames[i][j], flow, config);
  }

  /** The nested for_each of the placements: every request of every frame through reserveSlot, in order. */
  method ReserveFrames(ul: NetworkUtilizationList, frames: seq<seq<Request>>, flow: nat, config: nat)
    requires ul.Valid() && forall x :: x in Flatten(frames) ==> x.queue < ul.links
    modifies ul
    ensures ul.Valid() && RequestsFit(old(ul.State()), Flatten(frames))
    ensures ul.State() == ReserveAll(old(ul.State()), Flatten(frames), flow, config)
  {
    ghost var st0 := ul.State();
    FitsOnLinks(st0, Flatten(frames));
    var i := 0;
    while i < |frames|
      invariant 0 <= i <= |frames| && ul.Valid() && ul.links == |st0.free|
      invariant RequestsFit(st0, Flatten(frames[..i]))
      invariant ul.State() == ReserveAll(st0, Flatten(frames[..i]), flow, config)
    {
      ReserveFrame(ul, st0, frames, i, flow, config);
      i := i + 1;
    }
    assert frames[..i] == frames;
  }

  /** The inner for_each of the placements: the requests of frame i through reserveSlot, in order. */
  method ReserveFrame(ul: NetworkUtilizationList, ghost st0: ListState, frames: seq<seq<Request>>, i: nat, flow: nat, config: nat)
    requires ul.Valid() && Shaped(st0) && ul.links == |st0.free| && i < |frames|
    requires forall x :: x in Flatten(frames) ==> x.queue < |st0.free|
    requires RequestsFit(st0, Flatten(frames[..i])) && ul.State() == ReserveAll(st0, Flatten(frames[..i]), flow, config)
    modifies ul
    ensures ul.Valid() && ul.links == |st0.free| && RequestsFit(st0, Flatten(frames[..i + 1]))
    ensures ul.State() == ReserveAll(st0, Flatten(frames[..i + 1]), flow, config)
  {
    var j := 0;
    assert frames[i][..0] == [] && Flatten(frames[..i]) + [] == Flatten(frames[..i]);
    while j < |frames[i]|
      invariant 0 <= j <= |frames[i]| && ul.Valid() && ul.links == |st0.free|
      invariant RequestsFit(st0, Flatten(frames[..i]) + frames[i][..j])
      invariant ul.State() == ReserveAll(st0, Flatten(frames[..i]) + frames[i][..j], flow, config)
    {
      ReserveFrameStep(st0, frames, i, j, flow, config);
      var accepted := ul.ReserveSlot(frames[i][j], flow, config);
      j := j + 1;
    }
    DoneFits(st0, frames, i, |frames[i]|);
    assert frames[..i + 1][..i] == frames[..i];
    assert frames[i][..j] == frames[i];
    assert Flatten(frames[..i + 1]) == Flatten(frames[..i]) + frames[i];
  }

  /** Consistency of the list object is the tiling of its state. */
  lemma ConsistentIsTiled(ul: NetworkUtilizationList)
    requires ul.Valid()
    ensures ul.Consistent() <==> TiledState(ul.State(), ul.hyperCycle)
  {
  }

  /**
   * The all_of of both placements: frame i is searched with release offset + i * period and
   * deadline (i + 1) * period, stopping at the first frame that finds nothing.  Nothing changes.
   */
  method SearchFrames(ul: NetworkUtilizationList, path: seq<nat>, frameSize: nat, period: nat, offset: nat, n: nat)
    returns (frames: seq<seq<Request>>, all: bool)
    requires ul.Valid() && PathFits(ul.free, path) && frameSize <= SizeMax && n * period <= SizeMax
    ensures all == AllFound(OffsetFrames(ul.free, path, frameSize, period, offset, n))
    ensures all ==> frames == OffsetFrames(ul.free, path, frameSize, period, offset, n)
  {
    ghost var spec := OffsetFrames(ul.free, path, frameSize, period, offset, n);
    frames := [];
    var i := 0;
    while i < n
      invariant 0 <= i <= n && frames == spec[..i] && AllFound(frames)
    {
      var found := SearchFrame(ul, path, frameSize, period, offset, n, i);
      if found == [] {
        return frames, false;
      }
      frames := frames + [found];
      i := i + 1;
    }
    assert frames == spec;
    all := true;
  }

  /** One search of the all_of: frame i released at offset + i * period, due at (i + 1) * period. */
  method SearchFrame(ul: NetworkUtilizationList, path: seq<nat>, frameSize: nat, period: nat, offset: nat, n: nat, i: nat)
    returns (found: seq<Request>)
    requires ul.Valid() && PathFits(ul.free, path) && frameSize <= SizeMax && n * period <= SizeMax && i < n
    ensures found == OffsetFrames(ul.free, path, frameSize, period, offset, n)[i]
  {
    MulMono(i + 1, n, period);
    found := ul.SearchTransmissionOpportunities(path, frameSize, offset + i * period, (i + 1) * period);
  }

  /**
   * placeConfigASAP: search every frame of the hyper-cycle on the unchanged list, frame i released
   * at i * period and due at (i + 1) * period; reserve them all only when every search succeeded.
   */
  method PlaceConfigAsap(ul: NetworkUtilizationList, config: Configuration, flow: Flow) returns (ok: bool)
    requires ul.Valid() && Placeable(ul.State(), config.path, flow.frameSize, flow.period, ul.hyperCycle)
    modifies ul
    ensures ul.Valid()
    ensures Outcome(ok, ul.State()) == AsapOutcome(old(ul.State()), config.path, flow.frameSize, flow.period, ul.hyperCycle, flow.id, config.id)
    ensures old(ul.Consistent()) && flow.frameSize >= 125 ==> ul.Consistent()
  {
    ghost var st0 := ul.State();
    ConsistentIsTiled(ul);
    var n := ul.FramesPerHyperCycle(flow.period);
    var required, all := SearchFrames(ul, config.path, flow.frameSize, flow.period, 0, n);
    assert AsapFrames(st0, config.path, flow.frameSize, flow.period, ul.hyperCycle) == OffsetFrames(st0.free, config.path, flow.frameSize, flow.period, 0, n);
    if !all {
      return false;
    }
    FramesOnPath(st0.free, config.path, flow.frameSize, flow.period, 0, n);
    ReserveFrames(ul, required, flow.id, config.id);
    ok := true;
    ConsistentIsTiled(ul);
    if flow.frameSize >= 125 && TiledState(st0, ul.hyperCycle) {
      AsapKeepsTiles(st0, config.path, flow.frameSize, flow.period, ul.hyperCycle, flow.id, config.id);
    }
  }

  /**
   * placeConfigBalanced: for every sub-cycle offset of the period, the frames of the hyper-cycle
   * shifted by that offset, kept only when all were found; the option whose slowest frame is
   * fastest (the first such) is reserved.
   */
  method PlaceConfigBalanced(ul: NetworkUtilizationList, config: Configuration, flow: Flow) returns (ok: bool)
    requires ul.Valid() && Placeable(ul.State(), config.path, flow.frameSize, flow.period, ul.hyperCycle) && ul.subCycle > 0
    modifies ul
    ensures ul.Valid()
    ensures Outcome(ok, ul.State()) == BalancedOutcome(old(ul.State()), config.path, flow.frameSize, flow.period, ul.hyperCycle, ul.subCycle, flow.id, config.id)
    ensures old(ul.Consistent()) && flow.frameSize >= 125 ==> ul.Consistent()
  {
    ghost var st0 := ul.State();
    ConsistentIsTiled(ul);
    var n := ul.FramesPerHyperCycle(flow.period);
    var options := CollectOptions(ul, config.path, flow.frameSize, flow.period, n);
    var best := BestOption(options, SlowestE2E, 0);
    if best.None? {
      return false;
    }
    OptionOnPath(st0.free, config.path, flow.frameSize, flow.period, ul.subCycle, n, best.value);
    ReserveFrames(ul, options[best.value], flow.id, config.id);
    ok := true;
    ConsistentIsTiled(ul);
    if flow.frameSize >= 125 && TiledState(st0, ul.hyperCycle) {
      BalancedKeepsTiles(st0, config.path, flow.frameSize, flow.period, ul.hyperCycle, ul.subCycle, flow.id, config.id);
    }
  }

  lemma OffsetOptionFound(free: seq<seq<FreeSlot>>, path: seq<nat>, frameSize: nat, period: nat, offset: nat, n: nat, frames: seq<seq<Request>>, all: bool)
    requires PathFits(free, path) && frameSize <= SizeMax && n * period <= SizeMax
    requires all == AllFound(OffsetFrames(free, path, frameSize, period, offset, n))
    requires all ==> frames == OffsetFrames(free, path, frameSize, period, offset, n)
    ensures OffsetOption(free, path, frameSize, period, offset, n) == if all then frames else []
  {
  }

  /** The loop over sub-cycle offsets of placeConfigBalanced: reserved_slots, one option per offset. Nothing changes. */
  method CollectOptions(ul: NetworkUtilizationList, path: seq<nat>, frameSize: nat, period: nat, n: nat)
    returns (options: seq<seq<seq<Request>>>)
    requires ul.Valid() && PathFits(ul.free, path) && frameSize <= SizeMax && n * period <= SizeMax && ul.subCycle > 0
    ensures options == BalancedOptions(ul.free, path, frameSize, period, ul.subCycle, n)
  {
    ghost var spec := BalancedOptions(ul.free, path, frameSize, period, ul.subCycle, n);
    var subCycles := period / ul.subCycle;
    options := seq(subCycles, _ => []);
    var s := 0;
    while s < subCycles
      invariant 0 <= s <= subCycles && |options| == subCycles
      invariant forall s' :: 0 <= s' < s ==> options[s'] == spec[s']
      invariant forall s' :: s <= s' < subCycles ==> options[s'] == []
    {
      var option := OptionAt(ul, path, frameSize, period, s * ul.subCycle, n);
      options := options[s := option];
      s := s + 1;
    }
    assert options == spec;
  }

  /** One offset of placeConfigBalanced's loop: the frames found there, or none if one frame is missing. */
  method OptionAt(ul: NetworkUtilizationList, path: seq<nat>, frameSize: nat, period: nat, offset: nat, n: nat)
    returns (option: seq<seq<Request>>)
    requires ul.Valid() && PathFits(ul.free, path) && frameSize <= SizeMax && n * period <= SizeMax
    ensures option == OffsetOption(ul.free, path, frameSize, period, offset, n)
  {
    var frames, all := SearchFrames(ul, path, frameSize, period, offset, n);
    OffsetOptionFound(ul.free, path, frameSize, period, offset, n, frames, all);
    option := if all then frames else [];
  }

  /**
   * hermesPlacement: one transmission on the given egress queue, as late as the latest offset
   * and the latest suitable free slot allow.  A suitable slot must exist.
   */
  method HermesPlacement(ul: NetworkUtilizationList, config: Configuration, flow: Flow, queue: nat, latest: nat) returns (ok: bool)
    requires ul.Valid() && queue < ul.links && SizeTFree(ul.free[queue]) && latest <= SizeMax && flow.frameSize <= SizeMax
    requires LatestCandidate(ul.free[queue], latest, TransmissionDelay(flow.frameSize)).Some?
    modifies ul
    ensures ul.Valid()
    ensures Outcome(ok, ul.State()) == HermesOutcome(old(ul.State()), queue, latest, flow.frameSize, flow.id, config.id)
    ensures old(ul.Consistent()) && flow.frameSize >= 125 && ul.hyperCycle <= SizeMax ==> ok && ul.Consistent()
  {
    ghost var st0 := ul.State();
    ConsistentIsTiled(ul);
    var tx := TransmissionDelay(flow.frameSize);
    var slot := ul.free[queue][LatestCandidate(ul.free[queue], latest, tx).value];
    var start := Min(WrapAdd(WrapSub(slot.last, tx), 1), latest);
    var next := WrapAdd(start, tx);
    ok := ul.ReserveSlot(Request(queue, start, next, start), flow.id, config.id);
    ConsistentIsTiled(ul);
    if flow.frameSize >= 125 && ul.hyperCycle <= SizeMax && TiledState(st0, ul.hyperCycle) {
      HermesKeepsTiles(st0, queue, latest, flow.frameSize, ul.hyperCycle, flow.id, config.id);
    }
  }

  /** placeConfig: dispatch on the placement type; Hermes needs more information and is refused here. */
  method PlaceConfig(ul: NetworkUtilizationList, config: Configuration, flow: Flow, kind: PlacementType) returns (ok: bool)
    requires ul.Valid() && Placeable(ul.State(), config.path, flow.frameSize, flow.period, ul.hyperCycle)
    requires kind == Balanced ==> ul.subCycle > 0
    modifies ul
    ensures ul.Valid()
    ensures kind == Asap ==>
              Outcome(ok, ul.State()) == AsapOutcome(old(ul.State()), config.path, flow.frameSize, flow.period, ul.hyperCycle, flow.id, config.id)
    ensures kind == Balanced ==>
              Outcome(ok, ul.State()) == BalancedOutcome(old(ul.State()), config.path, flow.frameSize, flow.period, ul.hyperCycle, ul.subCycle, flow.id, config.id)
    ensures kind == Hermes ==> !ok && ul.State() == old(ul.State())
    ensures old(ul.Consistent()) && flow.frameSize >= 125 ==> ul.Consistent()
  {
    match kind
    case Asap => ok := PlaceConfigAsap(ul, config, flow);
    case Balanced => ok := PlaceConfigBalanced(ul, config, flow);
    case Hermes => ok := false;
  }
}
