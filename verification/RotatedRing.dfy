// The newest volume of a rotated ring of last-modified times
// (src-tauri/src/acquisition.rs, `rotated_max`).
//
// `ring` is what the provider holds; `failures` names the slots whose listing
// request fails. A search sees a slot only by requesting it, and `requests`
// counts the requests it makes.
module RotatedRing {
  import opened Common

  datatype Slot = Empty | Volume(modified: int)

  type Ring = seq<Slot>
  type Failures = map<nat, int>

  // What a search returns: a slot, none because every slot is empty, or the error of a failed request.
  datatype Search = Found(slot: nat) | AllEmpty | Failed(error: int)

  // One request's answer.
  datatype Reply = Holds(slot: Slot) | Broke(error: int)

  // The newest volume requested so far.
  datatype Best = NothingYet | BestAt(at: nat, modified: int)

  // ----- Rings and their newest slot -----

  // The populated values rise up to `boundary`, drop below every value before
  // it, and rise again. Ties are allowed inside a rise, never across the drop.
  ghost predicate RotatedAt(ring: Ring, boundary: nat) {
    && boundary <= |ring|
    && forall i, j :: 0 <= i < j < |ring| && ring[i].Volume? && ring[j].Volume? ==>
                        if i < boundary <= j then ring[j].modified < ring[i].modified
                        else ring[i].modified <= ring[j].modified
  }

  // The same with ties allowed across the drop too: a rotation of values that never fall.
  ghost predicate RisesAt(ring: Ring, boundary: nat) {
    && boundary <= |ring|
    && forall i, j :: 0 <= i < j < |ring| && ring[i].Volume? && ring[j].Volume? ==>
                        if i < boundary <= j then ring[j].modified <= ring[i].modified
                        else ring[i].modified <= ring[j].modified
  }

  ghost predicate DistinctValues(ring: Ring) {
    forall i, j :: 0 <= i < j < |ring| && ring[i].Volume? && ring[j].Volume? ==> ring[i].modified != ring[j].modified
  }

  // The populated values are a rotation of a strictly increasing sequence.
  ghost predicate Rotated(ring: Ring) {
    DistinctValues(ring) && exists boundary: nat :: RotatedAt(ring, boundary)
  }

  ghost predicate Dense(ring: Ring) {
    forall i :: 0 <= i < |ring| ==> ring[i].Volume?
  }

  // The search found a slot no other slot exceeds, or every slot is empty.
  ghost predicate Newest(ring: Ring, found: Search) {
    match found
    case AllEmpty => forall i :: 0 <= i < |ring| ==> ring[i].Empty?
    case Found(k) =>
      && k < |ring| && ring[k].Volume?
      && forall i :: 0 <= i < |ring| && ring[i].Volume? ==> ring[i].modified <= ring[k].modified
    case Failed(_) => false
  }

  // The reference search: look at every slot.
  function LinearScan(ring: Ring): (found: Search)
    ensures Newest(ring, found)
  {
    if ring == [] then AllEmpty
    else
      var last := |ring| - 1;
      var before := LinearScan(ring[..last]);
      if ring[last].Empty? then before
      else if before.AllEmpty? || ring[last].modified > ring[before.slot].modified then Found(last)
      else before
  }

  lemma NewestIsLinearScan(ring: Ring, found: Search)
    requires DistinctValues(ring) && Newest(ring, found)
    ensures found == LinearScan(ring)
  {
    assert Newest(ring, LinearScan(ring));
  }

  // `Rotated` is the rotation it claims to be: leaving out the empty slots of
  // such a ring gives values[k..] + values[..k] for a strictly increasing `values`.
  function Populated(ring: Ring): (values: seq<int>) {
    if ring == [] then []
    else if ring[0].Empty? then Populated(ring[1..])
    else [ring[0].modified] + Populated(ring[1..])
  }

  // The rank of a populated slot among the populated slots.
  function Rank(ring: Ring, i: nat): (rank: nat)
    requires i < |ring| && ring[i].Volume?
    ensures rank < |Populated(ring)| && Populated(ring)[rank] == ring[i].modified
  {
    if i == 0 then 0
    else if ring[0].Empty? then Rank(ring[1..], i - 1)
    else 1 + Rank(ring[1..], i - 1)
  }

  lemma {:induction false} RankIsMonotone(ring: Ring, i: nat, j: nat)
    requires i < j < |ring| && ring[i].Volume? && ring[j].Volume?
    ensures Rank(ring, i) < Rank(ring, j)
  {
    if i > 0 {
      RankIsMonotone(ring[1..], i - 1, j - 1);
    }
  }

  // The least slot whose rank reaches r, or |ring|.
  lemma {:induction false} SlotOfRank(ring: Ring, r: nat) returns (slot: nat)
    requires r <= |Populated(ring)|
    ensures slot <= |ring|
    ensures forall i: nat :: i < |ring| && ring[i].Volume? ==> (i < slot <==> Rank(ring, i) < r)
  {
    if ring == [] || r == 0 {
      slot := 0;
    } else {
      var below := SlotOfRank(ring[1..], if ring[0].Empty? then r else r - 1);
      slot := below + 1;
      forall i: nat | i < |ring| && ring[i].Volume? ensures i < slot <==> Rank(ring, i) < r {
        if i > 0 { assert ring[1..][i - 1].Volume?; }
      }
    }
  }

  lemma RotationOfIncreasing(ring: Ring, values: seq<int>, k: nat)
    requires StrictlyIncreasing(values) && k <= |values|
    requires Populated(ring) == values[k..] + values[..k]
    ensures Rotated(ring)
  {
    var boundary := SlotOfRank(ring, |values| - k);
    forall i, j | 0 <= i < j < |ring| && ring[i].Volume? && ring[j].Volume?
      ensures if i < boundary <= j then ring[j].modified < ring[i].modified else ring[i].modified < ring[j].modified
    {
      RankIsMonotone(ring, i, j);
      var a, b := Rank(ring, i), Rank(ring, j);
      assert ring[i].modified == (values[k..] + values[..k])[a];
      assert ring[j].modified == (values[k..] + values[..k])[b];
    }
    assert RotatedAt(ring, boundary);
  }

  lemma {:induction false} PopulatedJoins(a: Ring, b: Ring)
    ensures Populated(a + b) == Populated(a) + Populated(b)
  {
    if a == [] {
      assert a + b == b;
    } else {
      PopulatedJoins(a[1..], b);
      assert (a + b)[0] == a[0] && (a + b)[1..] == a[1..] + b;
    }
  }

  // The slot that holds the value of a rank.
  lemma {:induction false} SlotAt(ring: Ring, r: nat) returns (slot: nat)
    requires r < |Populated(ring)|
    ensures slot < |ring| && ring[slot].Volume? && Rank(ring, slot) == r
  {
    if ring[0].Volume? && r == 0 {
      slot := 0;
    } else {
      var rest := SlotAt(ring[1..], if ring[0].Empty? then r else r - 1);
      slot := rest + 1;
    }
  }

  // A part of a ring whose populated values never fall and never repeat, in rank order.
  lemma PartRises(part: Ring)
    requires forall i, j :: 0 <= i < j < |part| && part[i].Volume? && part[j].Volume? ==>
               part[i].modified < part[j].modified
    ensures StrictlyIncreasing(Populated(part))
  {
    forall i, j | 0 <= i < j < |Populated(part)| ensures Populated(part)[i] < Populated(part)[j] {
      var a := SlotAt(part, i);
      var b := SlotAt(part, j);
      if b < a { RankIsMonotone(part, b, a); }
    }
  }

  lemma PartsRise(ring: Ring, boundary: nat)
    requires DistinctValues(ring) && RotatedAt(ring, boundary)
    ensures StrictlyIncreasing(Populated(ring[..boundary])) && StrictlyIncreasing(Populated(ring[boundary..]))
  {
    PartRises(ring[..boundary]);
    PartRises(ring[boundary..]);
  }

  lemma PartsDrop(ring: Ring, boundary: nat, i: nat, j: nat)
    requires RotatedAt(ring, boundary) && i < |Populated(ring[boundary..])| && j < |Populated(ring[..boundary])|
    ensures Populated(ring[boundary..])[i] < Populated(ring[..boundary])[j]
  {
    var a := SlotAt(ring[boundary..], i);
    var b := SlotAt(ring[..boundary], j);
    assert ring[boundary + a] == ring[boundary..][a] && ring[b] == ring[..boundary][b];
  }

  lemma IncreasingJoins(a: seq<int>, b: seq<int>)
    requires StrictlyIncreasing(a) && StrictlyIncreasing(b)
    requires forall i, j :: 0 <= i < |a| && 0 <= j < |b| ==> a[i] < b[j]
    ensures StrictlyIncreasing(a + b)
  {
  }

  // Conversely, every such ring is a rotation of a strictly increasing sequence.
  lemma IncreasingOfRotation(ring: Ring) returns (values: seq<int>, k: nat)
    requires Rotated(ring)
    ensures StrictlyIncreasing(values) && k <= |values| && Populated(ring) == values[k..] + values[..k]
  {
    var boundary: nat :| RotatedAt(ring, boundary);
    var older, newer := Populated(ring[boundary..]), Populated(ring[..boundary]);
    PopulatedJoins(ring[..boundary], ring[boundary..]);
    assert ring == ring[..boundary] + ring[boundary..];
    PartsRise(ring, boundary);
    forall i, j | 0 <= i < |older| && 0 <= j < |newer| ensures older[i] < newer[j] { PartsDrop(ring, boundary, i, j); }
    IncreasingJoins(older, newer);
    values, k := older + newer, |older|;
    assert values[k..] == newer && values[..k] == older;
  }

  // ----- Requests -----

  // Every slot requested answered.
  ghost predicate Answered(failures: Failures, requested: set<nat>) {
    requested !! failures.Keys
  }

  // The search stopped at a requested slot whose request failed with this error.
  ghost predicate FailedAt(failures: Failures, requested: set<nat>, error: int) {
    exists slot :: slot in requested && slot in failures && failures[slot] == error
  }

  // ----- rotated_max -----

  // The least k with n <= 2^k.
  function CeilLog2(n: nat): (k: nat) {
    if n <= 1 then 0 else 1 + CeilLog2((n + 1) / 2)
  }

  function Pow2(k: nat): (p: nat) { if k == 0 then 1 else 2 * Pow2(k - 1) }

  lemma {:induction false} CeilLog2IsExact(n: nat)
    requires n >= 2
    ensures CeilLog2(n) >= 1 && Pow2(CeilLog2(n) - 1) < n <= Pow2(CeilLog2(n))
  {
    if n > 2 {
      CeilLog2IsExact((n + 1) / 2);
    } else {
      assert CeilLog2(1) == 0 && CeilLog2(2) == 1;
    }
  }

  lemma {:induction false} CeilLog2IsMonotone(m: nat, n: nat)
    requires m <= n
    ensures CeilLog2(m) <= CeilLog2(n)
  {
    if m > 1 {
      CeilLog2IsMonotone((m + 1) / 2, (n + 1) / 2);
    }
  }

  type Interval = (nat, nat)

  // Each interval weighs 2 * length - 1, so a split strictly lowers the queue.
  function Weight(queue: seq<Interval>): (w: nat) {
    if queue == [] then 0
    else (if queue[0].0 > queue[0].1 then 1 else 2 * (queue[0].1 - queue[0].0) + 1) + Weight(queue[1..])
  }

  lemma {:induction false} WeightOfAppend(queue: seq<Interval>, interval: Interval)
    ensures Weight(queue + [interval]) == Weight(queue) + Weight([interval])
  {
    if queue != [] {
      assert (queue + [interval])[1..] == queue[1..] + [interval];
      WeightOfAppend(queue[1..], interval);
    }
  }

  // How many unrequested slots a dense ring's interval can still cost: its
  // ends, and two per split if its ends are out of order.
  ghost function Cost(ring: Ring, slots: set<nat>, interval: Interval): (c: nat)
    requires Dense(ring) && interval.0 <= interval.1 < |ring|
  {
    var (start, end) := interval;
    (if start in slots then 0 else 1) + (if end in slots || start == end then 0 else 1)
    + (if ring[start].modified <= ring[end].modified then 0 else 2 * CeilLog2(end - start + 1) - 2)
  }

  ghost predicate InRange(ring: Ring, queue: seq<Interval>) {
    forall q :: 0 <= q < |queue| ==> queue[q].0 <= queue[q].1 < |ring|
  }

  ghost function TotalCost(ring: Ring, slots: set<nat>, queue: seq<Interval>): (c: nat)
    requires Dense(ring) && InRange(ring, queue)
  {
    if queue == [] then 0 else Cost(ring, slots, queue[0]) + TotalCost(ring, slots, queue[1..])
  }

  lemma {:induction false} TotalCostOfAppend(ring: Ring, slots: set<nat>, queue: seq<Interval>, interval: Interval)
    requires Dense(ring) && InRange(ring, queue) && interval.0 <= interval.1 < |ring|
    ensures TotalCost(ring, slots, queue + [interval]) == TotalCost(ring, slots, queue) + Cost(ring, slots, interval)
  {
    if queue == [] {
      assert queue + [interval] == [interval];
    } else {
      assert (queue + [interval])[1..] == queue[1..] + [interval];
      TotalCostOfAppend(ring, slots, queue[1..], interval);
    }
  }

  lemma {:induction false} TotalCostShrinks(ring: Ring, slots: set<nat>, more: set<nat>, queue: seq<Interval>)
    requires Dense(ring) && InRange(ring, queue) && slots <= more
    ensures TotalCost(ring, more, queue) <= TotalCost(ring, slots, queue)
  {
    if queue != [] {
      TotalCostShrinks(ring, slots, more, queue[1..]);
    }
  }

  // Splitting an out-of-order interval whose ends are requested costs at most
  // what the interval was charged: only one half can still be out of order.
  lemma SplitCost(ring: Ring, boundary: nat, slots: set<nat>, start: nat, end: nat)
    requires Dense(ring) && RisesAt(ring, boundary)
    requires start + 1 < end < |ring| && start in slots && end in slots && ring[start].modified > ring[end].modified
    ensures var mid := start + (end - start) / 2;
            Cost(ring, slots, (start, mid)) + Cost(ring, slots, (mid + 1, end)) <= 2 * CeilLog2(end - start + 1) - 2
  {
    var mid := start + (end - start) / 2;
    HalvesOfLog(end - start + 1, mid - start + 1, end - mid);
    HalvesCost(ring, boundary, slots, start, mid, end, CeilLog2(mid - start + 1));
  }

  lemma HalvesCost(ring: Ring, boundary: nat, slots: set<nat>, start: nat, mid: nat, end: nat, most: nat)
    requires Dense(ring) && RisesAt(ring, boundary)
    requires start <= mid < end < |ring| && start in slots && end in slots
    requires CeilLog2(mid - start + 1) <= most && CeilLog2(end - mid) <= most && most >= 1
    ensures Cost(ring, slots, (start, mid)) + Cost(ring, slots, (mid + 1, end)) <= 2 * most
  {
    HalfCost(ring, slots, start, mid, most);
    HalfCost(ring, slots, mid + 1, end, most);
    OneHalfRises(ring, boundary, start, mid, end);
  }

  lemma OneHalfRises(ring: Ring, boundary: nat, start: nat, mid: nat, end: nat)
    requires Dense(ring) && RisesAt(ring, boundary) && start <= mid < end < |ring|
    ensures ring[start].modified <= ring[mid].modified || ring[mid + 1].modified <= ring[end].modified
  {
  }

  lemma HalfCost(ring: Ring, slots: set<nat>, start: nat, end: nat, most: nat)
    requires Dense(ring) && start <= end < |ring| && (start in slots || end in slots)
    requires CeilLog2(end - start + 1) <= most && most >= 1
    ensures Cost(ring, slots, (start, end))
            <= 1 + if ring[start].modified <= ring[end].modified then 0 else 2 * most - 2
  {
  }

  lemma HalvesOfLog(length: nat, more: nat, less: nat)
    requires length >= 3 && more == (length + 1) / 2 && less == length / 2
    ensures CeilLog2(length) == 1 + CeilLog2(more) && CeilLog2(less) <= CeilLog2(more) && CeilLog2(more) >= 1
  {
    CeilLog2IsMonotone(less, more);
    CeilLog2IsMonotone(2, more);
    assert CeilLog2(2) == 1 + CeilLog2(1) == 1;
  }

  ghost predicate Caches(ring: Ring, cache: map<nat, Slot>) {
    forall i :: i in cache ==> i < |ring| && cache[i] == ring[i]
  }

  // A dense ring's requests so far, with what its queue can still cost, stay within its budget.
  ghost predicate WithinBudget(ring: Ring, slots: set<nat>, queue: seq<Interval>) {
    Dense(ring) && InRange(ring, queue) ==> |slots| + TotalCost(ring, slots, queue) <= Budget(|ring|)
  }

  function Budget(n: nat): (most: nat) { if n == 1 then 1 else 2 * CeilLog2(n) }

  lemma WithinBudgetAtFirst(ring: Ring)
    requires ring != []
    ensures WithinBudget(ring, {}, [(0, |ring| - 1)])
  {
    if Dense(ring) {
      var queue: seq<Interval> := [(0, |ring| - 1)];
      assert TotalCost(ring, {}, queue) == Cost(ring, {}, queue[0]) + TotalCost(ring, {}, queue[1..]);
      if |ring| >= 2 { CeilLog2IsExact(|ring|); }
    }
  }

  lemma WithinBudgetAfterLeaving(ring: Ring, known: set<nat>, queue: seq<Interval>, slots: set<nat>)
    requires queue != [] && InRange(ring, queue) && WithinBudget(ring, known, queue)
    requires slots == known + {queue[0].0, queue[0].1}
    ensures WithinBudget(ring, slots, queue[1..])
    ensures Dense(ring) ==> |slots| <= Budget(|ring|)
  {
    if Dense(ring) {
      TotalCostShrinks(ring, known, slots, queue[1..]);
      Enlarged(known, queue[0].0, queue[0].1);
    }
  }

  lemma Enlarged(slots: set<nat>, a: nat, b: nat)
    ensures |slots + {a, b}| == |slots| + (if a in slots then 0 else 1) + (if b in slots || a == b then 0 else 1)
  {
    assert slots + {a, b} == (slots + {a}) + {b};
    if a in slots { assert slots + {a} == slots; }
    if b in slots + {a} { assert slots + {a, b} == slots + {a}; }
  }

  lemma WithinBudgetAfterSplitting(ring: Ring, boundary: nat, known: set<nat>, queue: seq<Interval>,
                                   slots: set<nat>, mid: nat, split: seq<Interval>)
    requires RisesAt(ring, boundary)
    requires queue != [] && InRange(ring, queue) && WithinBudget(ring, known, queue)
    requires var (start, end) := queue[0];
             && start + 1 < end && mid == start + (end - start) / 2
             && !(ring[start].Volume? && ring[end].Volume? && ring[start].modified <= ring[end].modified)
             && slots == known + {start, end} && split == queue[1..] + [(start, mid)] + [(mid + 1, end)]
    ensures WithinBudget(ring, slots, split)
  {
    var (start, end) := queue[0];
    if Dense(ring) {
      Enlarged(known, start, end);
      TotalCostShrinks(ring, known, slots, queue[1..]);
      SplitCost(ring, boundary, slots, start, end);
      AppendTwo(ring, slots, queue[1..], (start, mid), (mid + 1, end));
    }
  }

  lemma AppendTwo(ring: Ring, slots: set<nat>, queue: seq<Interval>, left: Interval, right: Interval)
    requires Dense(ring) && InRange(ring, queue) && left.0 <= left.1 < |ring| && right.0 <= right.1 < |ring|
    ensures InRange(ring, queue + [left] + [right])
    ensures TotalCost(ring, slots, queue + [left] + [right])
            == TotalCost(ring, slots, queue) + Cost(ring, slots, left) + Cost(ring, slots, right)
  {
    TotalCostOfAppend(ring, slots, queue, left);
    TotalCostOfAppend(ring, slots, queue + [left], right);
  }

  lemma WeightAfterSplitting(queue: seq<Interval>, mid: nat)
    requires queue != [] && queue[0].0 <= mid < queue[0].1
    ensures Weight(queue[1..] + [(queue[0].0, mid)] + [(mid + 1, queue[0].1)]) < Weight(queue)
  {
    WeightOfAppend(queue[1..], (queue[0].0, mid));
    WeightOfAppend(queue[1..] + [(queue[0].0, mid)], (mid + 1, queue[0].1));
  }

  // ----- What the search finds, on any ring -----

  predicate Skips(ring: Ring, start: nat, end: nat)
    requires start < |ring| && end < |ring|
  {
    ring[start].Volume? && ring[end].Volume? && ring[start].modified <= ring[end].modified
  }

  // Two intervals side by side that make up a third.
  predicate IsSplit(interval: Interval, halves: seq<Interval>) {
    && |halves| == 2 && halves[0].0 == interval.0 && halves[1].1 == interval.1
    && halves[0].1 < interval.1 && interval.0 <= halves[0].1 && halves[1].0 == halves[0].1 + 1
  }

  // What an interval is split into once its ends are probed: nothing if it has
  // no slot between them, or if its ends are in order.
  function Halves(ring: Ring, interval: Interval): (halves: seq<Interval>)
    requires interval.0 <= interval.1 < |ring|
    ensures InRange(ring, halves)
    ensures halves == [] || IsSplit(interval, halves)
  {
    var (start, end) := interval;
    if end <= start + 1 || Skips(ring, start, end) then []
    else [(start, start + (end - start) / 2), (start + (end - start) / 2 + 1, end)]
  }

  lemma InRangeJoins(ring: Ring, queue: seq<Interval>, more: seq<Interval>)
    requires InRange(ring, queue) && InRange(ring, more)
    ensures InRange(ring, queue + more)
  {
  }

  lemma HalvesWeighLess(ring: Ring, queue: seq<Interval>)
    requires queue != [] && InRange(ring, queue)
    ensures InRange(ring, queue[1..] + Halves(ring, queue[0]))
    ensures Weight(queue[1..] + Halves(ring, queue[0])) < Weight(queue)
  {
    var halves := Halves(ring, queue[0]);
    InRangeJoins(ring, queue[1..], halves);
    NextWeighsLess(queue, halves);
  }

  lemma NextWeighsLess(queue: seq<Interval>, halves: seq<Interval>)
    requires queue != [] && queue[0].0 <= queue[0].1
    requires halves == [] || IsSplit(queue[0], halves)
    ensures Weight(queue[1..] + halves) < Weight(queue)
  {
    var mid := if halves == [] then 0 else halves[0].1;
    if halves == [] {
      assert queue[1..] + halves == queue[1..];
    } else {
      WeightAfterSplitting(queue, mid);
      assert queue[1..] + halves == queue[1..] + [(queue[0].0, mid)] + [(mid + 1, queue[0].1)];
    }
  }

  function AfterEnds(ring: Ring, interval: Interval, best: Best): Best
    requires interval.0 <= interval.1 < |ring|
  {
    RetainNewest(RetainNewest(best, interval.0, ring[interval.0]), interval.1, ring[interval.1])
  }

  // The search from a queue of intervals, when every request is answered.
  function SearchFrom(ring: Ring, queue: seq<Interval>, best: Best): Best
    requires InRange(ring, queue)
    decreases Weight(queue)
  {
    if queue == [] then best
    else
      HalvesWeighLess(ring, queue);
      SearchFrom(ring, queue[1..] + Halves(ring, queue[0]), AfterEnds(ring, queue[0], best))
  }

  function Answer(best: Best): Search {
    if best.NothingYet? then AllEmpty else Found(best.at)
  }

  function Searched(ring: Ring): Search {
    if ring == [] then AllEmpty else Answer(SearchFrom(ring, [(0, |ring| - 1)], NothingYet))
  }

  // The search from a queue of intervals, when some requests fail: the first of
  // them the search comes to ends it.
  function OutcomeFrom(ring: Ring, failures: Failures, queue: seq<Interval>, best: Best): Search
    requires InRange(ring, queue)
    decreases Weight(queue)
  {
    if queue == [] then Answer(best)
    else if queue[0].0 in failures then Failed(failures[queue[0].0])
    else if queue[0].1 in failures then Failed(failures[queue[0].1])
    else
      HalvesWeighLess(ring, queue);
      OutcomeFrom(ring, failures, queue[1..] + Halves(ring, queue[0]), AfterEnds(ring, queue[0], best))
  }

  function Outcome(ring: Ring, failures: Failures): Search {
    if ring == [] then AllEmpty else OutcomeFrom(ring, failures, [(0, |ring| - 1)], NothingYet)
  }

  // The search comes to probe slot k of an interval: it is an end, or in a half the interval is split into.
  predicate Reaches(ring: Ring, start: nat, end: nat, k: nat)
    requires start <= end < |ring|
    decreases end - start
  {
    || k == start || k == end
    || (Halves(ring, (start, end)) != []
        && var mid := start + (end - start) / 2;
           if k <= mid then Reaches(ring, start, mid, k) else Reaches(ring, mid + 1, end, k))
  }

  ghost predicate ReachesFrom(ring: Ring, queue: seq<Interval>, k: nat)
    requires InRange(ring, queue)
  {
    exists q :: 0 <= q < |queue| && Reaches(ring, queue[q].0, queue[q].1, k)
  }

  ghost predicate Held(ring: Ring, best: Best) {
    best.BestAt? ==> best.at < |ring| && ring[best.at] == Volume(best.modified)
  }

  predicate AtLeast(better: Best, best: Best) {
    best.BestAt? ==> better.BestAt? && best.modified <= better.modified
  }

  lemma PairReaches(ring: Ring, pair: seq<Interval>, k: nat)
    requires |pair| == 2 && InRange(ring, pair)
    ensures ReachesFrom(ring, pair, k) <==>
            Reaches(ring, pair[0].0, pair[0].1, k) || Reaches(ring, pair[1].0, pair[1].1, k)
  {
  }

  // One interval's probes and halves reach what the interval reaches.
  lemma HalvesReach(ring: Ring, interval: Interval, k: nat)
    requires interval.0 <= interval.1 < |ring|
    ensures Reaches(ring, interval.0, interval.1, k) <==>
            k == interval.0 || k == interval.1 || ReachesFrom(ring, Halves(ring, interval), k)
  {
    var halves, mid := Halves(ring, interval), interval.0 + (interval.1 - interval.0) / 2;
    if halves != [] {
      assert halves[0] == (interval.0, mid) && halves[1] == (mid + 1, interval.1);
      PairReaches(ring, halves, k);
      if Reaches(ring, interval.0, mid, k) { ReachesWithin(ring, interval.0, mid, k); }
      if Reaches(ring, mid + 1, interval.1, k) { ReachesWithin(ring, mid + 1, interval.1, k); }
    }
  }

  lemma ReachesEither(ring: Ring, queue: seq<Interval>, more: seq<Interval>, k: nat)
    requires InRange(ring, queue) && InRange(ring, more)
    ensures InRange(ring, queue + more)
    ensures ReachesFrom(ring, queue + more, k) <==> ReachesFrom(ring, queue, k) || ReachesFrom(ring, more, k)
  {
    var all := queue + more;
    if q :| 0 <= q < |queue| && Reaches(ring, queue[q].0, queue[q].1, k) { assert all[q] == queue[q]; }
    if q :| 0 <= q < |more| && Reaches(ring, more[q].0, more[q].1, k) { assert all[|queue| + q] == more[q]; }
    if q :| 0 <= q < |all| && Reaches(ring, all[q].0, all[q].1, k) {
      assert all[q] == if q < |queue| then queue[q] else more[q - |queue|];
    }
  }

  lemma ReachesOn(ring: Ring, queue: seq<Interval>, k: nat)
    requires queue != [] && InRange(ring, queue)
    ensures InRange(ring, queue[1..] + Halves(ring, queue[0]))
    ensures ReachesFrom(ring, queue, k) <==>
            k == queue[0].0 || k == queue[0].1 || ReachesFrom(ring, queue[1..] + Halves(ring, queue[0]), k)
  {
    HalvesReach(ring, queue[0], k);
    ReachesEither(ring, queue[1..], Halves(ring, queue[0]), k);
    ReachesEither(ring, [queue[0]], queue[1..], k);
    assert queue == [queue[0]] + queue[1..];
    assert ReachesFrom(ring, [queue[0]], k) <==> Reaches(ring, queue[0].0, queue[0].1, k) by {
      assert [queue[0]][0] == queue[0];
    }
  }

  lemma {:induction false} ReachesWithin(ring: Ring, start: nat, end: nat, k: nat)
    requires start <= end < |ring| && Reaches(ring, start, end, k)
    ensures start <= k <= end
    decreases end - start
  {
    if k != start && k != end {
      var mid := start + (end - start) / 2;
      if k <= mid { ReachesWithin(ring, start, mid, k); } else { ReachesWithin(ring, mid + 1, end, k); }
    }
  }

  // `found` is the best of `best` and of the slots the queue reaches.
  ghost predicate NewestReached(ring: Ring, queue: seq<Interval>, best: Best, found: Best)
    requires InRange(ring, queue)
  {
    && Held(ring, found) && AtLeast(found, best) && (found == best || ReachesFrom(ring, queue, found.at))
    && forall k: nat :: k < |ring| && ring[k].Volume? && ReachesFrom(ring, queue, k) ==>
                          found.BestAt? && ring[k].modified <= found.modified
  }

  lemma NewestReachedOn(ring: Ring, queue: seq<Interval>, best: Best, found: Best)
    requires queue != [] && InRange(ring, queue) && InRange(ring, queue[1..] + Halves(ring, queue[0]))
    requires NewestReached(ring, queue[1..] + Halves(ring, queue[0]), AfterEnds(ring, queue[0], best), found)
    ensures NewestReached(ring, queue, best, found)
  {
    forall k: nat | k < |ring| && ring[k].Volume? && ReachesFrom(ring, queue, k)
      ensures found.BestAt? && ring[k].modified <= found.modified
    {
      ReachesOn(ring, queue, k);
    }
    if found.BestAt? { ReachesOn(ring, queue, found.at); }
  }

  // The search ends with the newest of the slots it reaches.
  lemma {:induction false} SearchKeepsNewest(ring: Ring, queue: seq<Interval>, best: Best)
    requires InRange(ring, queue) && Held(ring, best)
    ensures NewestReached(ring, queue, best, SearchFrom(ring, queue, best))
    decreases Weight(queue)
  {
    if queue != [] {
      HalvesWeighLess(ring, queue);
      SearchKeepsNewest(ring, queue[1..] + Halves(ring, queue[0]), AfterEnds(ring, queue[0], best));
      NewestReachedOn(ring, queue, best, SearchFrom(ring, queue, best));
    }
  }

  // A slot the search reaches has a request that fails with this error.
  ghost predicate FailsFrom(ring: Ring, failures: Failures, queue: seq<Interval>, error: int)
    requires InRange(ring, queue)
  {
    exists k :: k in failures && ReachesFrom(ring, queue, k) && failures[k] == error
  }

  // A search that fails reached a slot whose request does.
  lemma {:induction false} FailsReached(ring: Ring, failures: Failures, queue: seq<Interval>, best: Best)
    requires InRange(ring, queue) && OutcomeFrom(ring, failures, queue, best).Failed?
    ensures FailsFrom(ring, failures, queue, OutcomeFrom(ring, failures, queue, best).error)
    decreases Weight(queue)
  {
    var (start, end) := queue[0];
    HalvesWeighLess(ring, queue);
    var rest := queue[1..] + Halves(ring, queue[0]);
    ReachesOn(ring, queue, start);
    ReachesOn(ring, queue, end);
    if start !in failures && end !in failures {
      FailsReached(ring, failures, rest, AfterEnds(ring, queue[0], best));
      var k :| k in failures && ReachesFrom(ring, rest, k)
               && failures[k] == OutcomeFrom(ring, failures, queue, best).error;
      ReachesOn(ring, queue, k);
    }
  }

  // A search that does not fail reached no such slot, and ends as if there were none.
  lemma {:induction false} SucceedsPast(ring: Ring, failures: Failures, queue: seq<Interval>, best: Best, k: nat)
    requires InRange(ring, queue) && !OutcomeFrom(ring, failures, queue, best).Failed?
    ensures OutcomeFrom(ring, failures, queue, best) == Answer(SearchFrom(ring, queue, best))
    ensures k in failures ==> !ReachesFrom(ring, queue, k)
    decreases Weight(queue)
  {
    if queue != [] {
      HalvesWeighLess(ring, queue);
      SucceedsPast(ring, failures, queue[1..] + Halves(ring, queue[0]), AfterEnds(ring, queue[0], best), k);
      ReachesOn(ring, queue, k);
    }
  }

  lemma WholeRingReaches(ring: Ring, k: nat)
    requires ring != []
    ensures ReachesFrom(ring, [(0, |ring| - 1)], k) <==> Reaches(ring, 0, |ring| - 1, k)
  {
    var queue: seq<Interval> := [(0, |ring| - 1)];
    assert queue[0] == (0, |ring| - 1);
  }

  // The search fails if and only if it reaches a slot whose request fails, and
  // then with the error of such a slot; else it finds what it finds without failures.
  lemma FailsIfReached(ring: Ring, failures: Failures)
    requires ring != []
    ensures Outcome(ring, failures).Failed? <==> exists k :: k in failures && Reaches(ring, 0, |ring| - 1, k)
    ensures var r := Outcome(ring, failures);
            if r.Failed? then exists k :: k in failures && Reaches(ring, 0, |ring| - 1, k) && r.error == failures[k]
            else r == Searched(ring)
  {
    var queue: seq<Interval> := [(0, |ring| - 1)];
    forall k: nat ensures ReachesFrom(ring, queue, k) <==> Reaches(ring, 0, |ring| - 1, k) {
      WholeRingReaches(ring, k);
    }
    if Outcome(ring, failures).Failed? {
      FailsReached(ring, failures, queue, NothingYet);
    } else {
      forall k: nat ensures k in failures ==> !ReachesFrom(ring, queue, k) {
        SucceedsPast(ring, failures, queue, NothingYet, k);
      }
      SucceedsPast(ring, failures, queue, NothingYet, 0);
    }
  }

  // On any ring at all the search finds a newest slot if and only if it reaches one.
  lemma SearchedIsNewest(ring: Ring)
    requires ring != []
    ensures Newest(ring, Searched(ring)) <==>
            Newest(ring, AllEmpty) || exists k: nat :: Newest(ring, Found(k)) && Reaches(ring, 0, |ring| - 1, k)
  {
    var queue: seq<Interval> := [(0, |ring| - 1)];
    SearchKeepsNewest(ring, queue, NothingYet);
    var found := SearchFrom(ring, queue, NothingYet);
    forall k: nat ensures Reaches(ring, 0, |ring| - 1, k) <==> ReachesFrom(ring, queue, k) {
      WholeRingReaches(ring, k);
    }
    if Newest(ring, Searched(ring)) && found.BestAt? { assert Newest(ring, Found(found.at)); }
  }

  // No interval skipped as in order hides all of the newest slots: the drop is
  // strict, or some slot after it is a newest one.
  ghost predicate SkipsSafely(ring: Ring, boundary: nat) {
    || RotatedAt(ring, boundary)
    || (RisesAt(ring, boundary) && exists j :: boundary <= j < |ring| && Newest(ring, Found(j)))
  }

  // Then an interval skipped as in order ends at its newest.
  lemma SkippedToEnd(ring: Ring, boundary: nat, start: nat, end: nat, k: nat)
    requires SkipsSafely(ring, boundary) && start <= k <= end < |ring| && Newest(ring, Found(k))
    requires Skips(ring, start, end)
    ensures Newest(ring, Found(end))
  {
  }

  // And within any interval that holds a newest slot, the search reaches one.
  lemma {:induction false} RotatedReaches(ring: Ring, boundary: nat, start: nat, end: nat, k: nat)
    returns (reached: nat)
    requires SkipsSafely(ring, boundary) && start <= k <= end < |ring| && Newest(ring, Found(k))
    ensures Newest(ring, Found(reached)) && Reaches(ring, start, end, reached)
    decreases end - start
  {
    if k == start || k == end {
      reached := k;
    } else if Skips(ring, start, end) {
      SkippedToEnd(ring, boundary, start, end, k);
      reached := end;
    } else {
      var mid := start + (end - start) / 2;
      if k <= mid {
        reached := RotatedReaches(ring, boundary, start, mid, k);
        ReachesWithin(ring, start, mid, reached);
      } else {
        reached := RotatedReaches(ring, boundary, mid + 1, end, k);
        ReachesWithin(ring, mid + 1, end, reached);
      }
    }
  }

  lemma RotatedIsSearched(ring: Ring, boundary: nat)
    requires SkipsSafely(ring, boundary)
    ensures Newest(ring, Searched(ring))
  {
    var scanned := LinearScan(ring);
    if ring != [] {
      if scanned.Found? { var reached := RotatedReaches(ring, boundary, 0, |ring| - 1, scanned.slot); }
      SearchedIsNewest(ring);
    }
  }

  // With ties across the drop allowed, a ring populated at both ends is searched
  // correctly if and only if its first slot is newer than its last, or nothing is newer than its last.
  lemma TiedSearchIsNewest(ring: Ring, boundary: nat)
    requires ring != [] && ring[0].Volume? && ring[|ring| - 1].Volume? && RisesAt(ring, boundary)
    ensures var last := ring[|ring| - 1].modified;
            Newest(ring, Searched(ring)) <==>
            ring[0].modified > last || forall i :: 0 <= i < |ring| && ring[i].Volume? ==> ring[i].modified <= last
  {
    var n := |ring|;
    SearchedIsNewest(ring);
    if ring[0].modified > ring[n - 1].modified {
      assert RotatedAt(ring, boundary);
      RotatedIsSearched(ring, boundary);
    } else if forall i :: 0 <= i < n && ring[i].Volume? ==> ring[i].modified <= ring[n - 1].modified {
      assert Newest(ring, Found(n - 1)) && Reaches(ring, 0, n - 1, n - 1);
    } else {
      forall k: nat | Reaches(ring, 0, n - 1, k) ensures !Newest(ring, Found(k)) {
        assert k == 0 || k == n - 1;
      }
    }
  }

  // On a ring with empty ends the condition on its first and last populated
  // slots suffices, but where it fails the splits may come to the newest slot
  // all the same (`EmptyEndsTie`).
  lemma SparseSearchIsNewest(ring: Ring, boundary: nat, first: nat, last: nat)
    requires RisesAt(ring, boundary) && first <= last < |ring| && ring[first].Volume? && ring[last].Volume?
    requires forall i :: 0 <= i < |ring| && ring[i].Volume? ==> first <= i <= last
    requires || ring[first].modified > ring[last].modified
             || forall i :: 0 <= i < |ring| && ring[i].Volume? ==> ring[i].modified <= ring[last].modified
    ensures Newest(ring, Searched(ring))
  {
    if ring[first].modified > ring[last].modified {
      assert RotatedAt(ring, boundary);
      RotatedIsSearched(ring, boundary);
    } else if boundary <= last {
      assert Newest(ring, Found(last));
      RotatedIsSearched(ring, boundary);
    } else {
      assert RotatedAt(ring, |ring|);
      RotatedIsSearched(ring, |ring|);
    }
  }

  lemma EmptyEndsTie()
    ensures var ring := [Empty, Volume(3), Volume(5), Volume(3), Empty];
            RisesAt(ring, 3) && Newest(ring, Found(2)) && Newest(ring, Searched(ring))
  {
    var ring := [Empty, Volume(3), Volume(5), Volume(3), Empty];
    SearchedIsNewest(ring);
    assert Halves(ring, (0, 4)) != [];
    assert Reaches(ring, 0, 2, 2);
    assert Reaches(ring, 0, 4, 2);
    assert Newest(ring, Found(2));
  }

  // So a tie across the drop can hide the newest slot: this rotation of 3, 3, 5 is answered with its first slot.
  lemma TieAcrossDrop()
    ensures var ring := [Volume(3), Volume(5), Volume(3)];
            && RisesAt(ring, 2) && Searched(ring) == Found(0) && LinearScan(ring) == Found(1)
            && !Newest(ring, Searched(ring))
  {
    var ring := [Volume(3), Volume(5), Volume(3)];
    var queue: seq<Interval> := [(0, 2)];
    HalvesWeighLess(ring, queue);
    assert Halves(ring, (0, 2)) == [] && queue[1..] + Halves(ring, queue[0]) == [];
    assert AfterEnds(ring, (0, 2), NothingYet) == BestAt(0, 3);
    assert SearchFrom(ring, queue, NothingYet) == SearchFrom(ring, [], BestAt(0, 3)) == BestAt(0, 3);
    assert ring[1].modified > ring[0].modified;
    assert Newest(ring, LinearScan(ring));
  }

  // ----- The search, one request at a time -----

  function RetainNewest(best: Best, index: nat, candidate: Slot): (r: Best) {
    match candidate
    case Empty => best
    case Volume(modified) =>
      if best.NothingYet? || modified > best.modified then BestAt(index, modified) else best
  }

  method CachedProbe(ring: Ring, failures: Failures, cache: map<nat, Slot>, ghost requests: nat, index: nat)
    returns (reply: Reply, cached: map<nat, Slot>, ghost requested: set<nat>, ghost made: nat)
    requires index < |ring| && Caches(ring, cache) && Answered(failures, cache.Keys) && requests == |cache.Keys|
    ensures reply == if index in failures then Broke(failures[index]) else Holds(ring[index])
    ensures reply.Holds? ==> cached == cache[index := ring[index]] && Caches(ring, cached)
    ensures requested == cache.Keys + {index} && made == |requested|
    ensures reply.Holds? ==> cached.Keys == requested && Answered(failures, requested)
  {
    requested := cache.Keys + {index};
    if index in cache {
      assert requested == cache.Keys;
      return Holds(cache[index]), cache, requested, requests;
    }
    made := requests + 1;
    cached := cache;
    if index in failures {
      reply := Broke(failures[index]);
    } else {
      reply := Holds(ring[index]);
      cached := cache[index := ring[index]];
    }
  }

  lemma {:induction false} Enlarging(slots: set<nat>, more: set<nat>)
    requires slots <= more
    ensures |slots| <= |more|
  {
    assert more == slots + (more - slots);
  }

  // The cache answers for every slot requested, each requested once.
  ghost predicate Known(ring: Ring, failures: Failures, cache: map<nat, Slot>, requests: nat) {
    Caches(ring, cache) && Answered(failures, cache.Keys) && requests == |cache.Keys|
  }

  // The requests one interval makes: its start, then its end if that is another slot.
  method ProbeEnds(ring: Ring, failures: Failures, cache: map<nat, Slot>, best: Best,
                   ghost requests: nat, start: nat, end: nat)
    returns (reply: Reply, cached: map<nat, Slot>, better: Best, ghost requested: set<nat>, ghost made: nat)
    requires start <= end < |ring| && Known(ring, failures, cache, requests)
    ensures reply == if start in failures then Broke(failures[start])
                     else if end in failures then Broke(failures[end]) else Holds(ring[end])
    ensures reply.Holds? ==> cached.Keys == cache.Keys + {start, end} && better == AfterEnds(ring, (start, end), best)
    ensures requested <= cache.Keys + {start, end} && made == |requested|
    ensures reply.Broke? ==> FailedAt(failures, requested, reply.error)
    ensures reply.Holds? ==> cached.Keys == requested && Known(ring, failures, cached, made)
  {
    ghost var both := cache.Keys + {start, end};
    assert both == cache.Keys + {start} + {end};
    better := best;
    reply, cached, requested, made := CachedProbe(ring, failures, cache, requests, start);
    if reply.Broke? { return; }
    better := RetainNewest(best, start, reply.slot);
    if start == end { return; }
    reply, cached, requested, made := CachedProbe(ring, failures, cached, made, end);
    if reply.Holds? { better := RetainNewest(better, end, reply.slot); }
  }

  lemma AfterFailing(ring: Ring, known: set<nat>, queue: seq<Interval>, slots: set<nat>)
    requires queue != [] && InRange(ring, queue) && WithinBudget(ring, known, queue)
    requires slots <= known + {queue[0].0, queue[0].1}
    ensures Dense(ring) ==> |slots| <= Budget(|ring|)
  {
    var both := known + {queue[0].0, queue[0].1};
    WithinBudgetAfterLeaving(ring, known, queue, both);
    Enlarging(slots, both);
  }

  // Taking an interval off the queue keeps a rotated ring's budget.
  lemma BudgetGoesOn(ring: Ring, boundary: nat, known: set<nat>, queue: seq<Interval>, slots: set<nat>)
    requires RisesAt(ring, boundary) && queue != [] && InRange(ring, queue) && WithinBudget(ring, known, queue)
    requires slots == known + {queue[0].0, queue[0].1}
    ensures WithinBudget(ring, slots, queue[1..] + Halves(ring, queue[0]))
  {
    var (start, end) := queue[0];
    var halves := Halves(ring, queue[0]);
    if halves == [] {
      WithinBudgetAfterLeaving(ring, known, queue, slots);
      assert queue[1..] + halves == queue[1..];
    } else {
      var mid := start + (end - start) / 2;
      assert queue[1..] + halves == queue[1..] + [(start, mid)] + [(mid + 1, end)];
      WithinBudgetAfterSplitting(ring, boundary, known, queue, slots, mid, queue[1..] + halves);
    }
  }

  ghost predicate Rises(ring: Ring) {
    exists boundary: nat :: RisesAt(ring, boundary)
  }

  // Where the search stands between intervals.
  ghost predicate Searching(ring: Ring, failures: Failures, cache: map<nat, Slot>, requests: nat, queue: seq<Interval>,
                            best: Best) {
    && Known(ring, failures, cache, requests) && InRange(ring, queue)
    && OutcomeFrom(ring, failures, queue, best) == Outcome(ring, failures)
    && (Rises(ring) ==> WithinBudget(ring, cache.Keys, queue))
  }

  // The halves of an interval the search must split go to the back of the queue.
  method Requeue(ring: Ring, cache: map<nat, Slot>, queue: seq<Interval>, start: nat, end: nat)
    returns (next: seq<Interval>)
    requires Caches(ring, cache) && start in cache && end in cache && start <= end < |ring|
    ensures next == queue + Halves(ring, (start, end))
  {
    var mid := start + (end - start) / 2;
    // A populated interval whose ends are in order is taken to hold nothing newer than its right end.
    if start == end || (cache[start].Volume? && cache[end].Volume? && cache[start].modified <= cache[end].modified)
       || mid == start {
      next := queue;
    } else {
      next := queue + [(start, mid)] + [(mid + 1, end)];
    }
  }

  lemma SearchGoesOn(ring: Ring, failures: Failures, cache: map<nat, Slot>, requests: nat, known: set<nat>,
                     before: seq<Interval>, queue: seq<Interval>, best: Best)
    requires before != [] && InRange(ring, before) && queue == before[1..] + Halves(ring, before[0])
    requires Known(ring, failures, cache, requests) && cache.Keys == known + {before[0].0, before[0].1}
    requires InRange(ring, queue) && OutcomeFrom(ring, failures, queue, best) == Outcome(ring, failures)
    requires Rises(ring) ==> WithinBudget(ring, known, before)
    ensures Searching(ring, failures, cache, requests, queue, best)
  {
    if boundary: nat :| RisesAt(ring, boundary) { BudgetGoesOn(ring, boundary, known, before, cache.Keys); }
  }

  // `requests` counts the requests made for the slots in `requested`; none is requested twice.
  method RotatedMax(ring: Ring, failures: Failures)
    returns (r: Search, ghost requested: set<nat>, ghost requests: nat)
    ensures r == Outcome(ring, failures)
    ensures if r.Failed? then FailedAt(failures, requested, r.error) else Answered(failures, requested)
    ensures !r.Failed? ==>
              r == Searched(ring) && ((exists boundary: nat :: RotatedAt(ring, boundary)) ==> Newest(ring, r))
    ensures requests == |requested|
    ensures Rises(ring) && Dense(ring) && |ring| >= 2 ==> requests <= 2 * CeilLog2(|ring|)
  {
    requested, requests := {}, 0;
    if ring != [] { FailsIfReached(ring, failures); }
    if boundary: nat :| RotatedAt(ring, boundary) { RotatedIsSearched(ring, boundary); }
    if |ring| == 0 {
      return AllEmpty, requested, requests;
    }
    var cache: map<nat, Slot> := map[];
    var best := NothingYet;
    var queue: seq<Interval> := [(0, |ring| - 1)];
    WithinBudgetAtFirst(ring);
    while queue != []
      invariant cache.Keys == requested && Searching(ring, failures, cache, requests, queue, best)
      decreases Weight(queue)
    {
      var (start, end) := queue[0];
      ghost var before, known := queue, requested;
      HalvesWeighLess(ring, before);
      queue := queue[1..];
      // The source also passes over an interval with start > end; InRange shows there is none.
      var reply;
      reply, cache, best, requested, requests := ProbeEnds(ring, failures, cache, best, requests, start, end);
      if reply.Broke? {
        if Rises(ring) { AfterFailing(ring, known, before, requested); }
        return Failed(reply.error), requested, requests;
      }
      queue := Requeue(ring, cache, queue, start, end);
      SearchGoesOn(ring, failures, cache, requests, known, before, queue, best);
    }
    r := Answer(best);
  }
}
