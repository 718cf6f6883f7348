// The newest volume of a ring, probed in concurrent rounds
// (src-tauri/src/acquisition.rs, `sampled_rotated_max`).
module SampledRing {
  import opened Common
  import opened Arithmetic
  import opened RotatedRing

  const DISCOVERY_PROBES_PER_ROUND: nat := 32

  function Dedup(s: seq<nat>): (r: seq<nat>) {
    if |s| < 2 then s
    else if s[0] == s[1] then Dedup(s[1..])
    else [s[0]] + Dedup(s[1..])
  }

  lemma {:induction false} DedupKeepsIncreasing(s: seq<nat>)
    requires StrictlyIncreasing(s)
    ensures Dedup(s) == s
  {
    if |s| >= 2 {
      DedupKeepsIncreasing(s[1..]);
    }
  }

  lemma PickIndex(step: nat, last: nat, count: nat)
    requires count >= 2 && step < count
    ensures 0 <= step * last / (count - 1) <= last
    ensures step == count - 1 ==> step * last / (count - 1) == last
  {
    var d := count - 1;
    MulMonotone(step, d, last);
    DivMonotone(0, step * last, d);
    DivMonotone(step * last, d * last, d);
    DivIs(d * last, d, last);
    DivIs(0, d, 0);
  }

  function SpreadIndex(step: nat, last: nat, count: nat): (index: int)
    requires count >= 2
  {
    step * last / (count - 1)
  }

  function Sample(positions: seq<nat>, count: nat): (r: seq<nat>)
    requires 2 <= count < |positions|
    ensures |r| == count
  {
    seq(count, step requires 0 <= step < count =>
      PickIndex(step, |positions| - 1, count); positions[SpreadIndex(step, |positions| - 1, count)])
  }

  // At most `count` positions at even steps through the given ones, first and last among them.
  function Spread(positions: seq<nat>, count: nat): (picks: seq<nat>)
    requires count >= 2
  {
    if |positions| <= count then positions else Dedup(Sample(positions, count))
  }

  lemma SpreadIndicesRise(i: nat, j: nat, last: nat, d: nat)
    requires 0 < d <= last && i < j
    ensures i * last / d < j * last / d
  {
    MulMonotone(i + 1, j, last);
    DivFloor(i * last, d);
    var q := i * last / d;
    assert (q + 1) * d == q * d + d && (i + 1) * last == i * last + last;
    DivIs((q + 1) * d, d, q + 1);
    DivMonotone((q + 1) * d, j * last, d);
  }

  lemma SpreadIndices(last: nat, count: nat)
    requires 2 <= count <= last
    ensures forall k :: 0 <= k < count ==> 0 <= SpreadIndex(k, last, count) <= last
    ensures forall i, j :: 0 <= i < j < count ==> SpreadIndex(i, last, count) < SpreadIndex(j, last, count)
    ensures SpreadIndex(0, last, count) == 0 && SpreadIndex(count - 1, last, count) == last
  {
    forall k | 0 <= k < count ensures 0 <= SpreadIndex(k, last, count) <= last {
      PickIndex(k, last, count);
    }
    forall i, j | 0 <= i < j < count ensures SpreadIndex(i, last, count) < SpreadIndex(j, last, count) {
      SpreadIndicesRise(i, j, last, count - 1);
    }
    PickIndex(count - 1, last, count);
    DivIs(0, count - 1, 0);
  }

  lemma SampleRises(positions: seq<nat>, count: nat)
    requires 2 <= count < |positions| && StrictlyIncreasing(positions)
    ensures var r, last := Sample(positions, count), |positions| - 1;
            && StrictlyIncreasing(r) && r[0] == positions[0] && r[count - 1] == positions[last]
            && forall k :: 0 <= k < count ==> 0 <= SpreadIndex(k, last, count) <= last
                                              && r[k] == positions[SpreadIndex(k, last, count)]
  {
    SpreadIndices(|positions| - 1, count);
  }

  // Picks in order, at most `count` of them, all of the positions, both ends among them.
  ghost predicate PicksOf(picks: seq<nat>, positions: seq<nat>, count: nat) {
    && StrictlyIncreasing(picks) && |picks| == (if |positions| <= count then |positions| else count)
    && (forall k :: 0 <= k < |picks| ==> picks[k] in positions)
    && (picks != [] ==> positions != [] && picks[0] == positions[0] && picks[|picks| - 1] == positions[|positions| - 1])
  }

  lemma SamplePicks(positions: seq<nat>, count: nat)
    requires 2 <= count < |positions| && StrictlyIncreasing(positions)
    ensures PicksOf(Sample(positions, count), positions, count)
  {
    SampleRises(positions, count);
    forall k | 0 <= k < count ensures Sample(positions, count)[k] in positions {
      assert Sample(positions, count)[k] == positions[SpreadIndex(k, |positions| - 1, count)];
    }
  }

  // The picks are in order, at most `count`, and include both ends; when there
  // are more positions than picks, none is repeated.
  lemma SpreadPicks(positions: seq<nat>, count: nat)
    requires count >= 2 && StrictlyIncreasing(positions)
    ensures PicksOf(Spread(positions, count), positions, count)
    ensures |positions| > count ==> Spread(positions, count) == Sample(positions, count)
  {
    if |positions| > count {
      SamplePicks(positions, count);
      DedupKeepsIncreasing(Sample(positions, count));
    }
  }

  // The newest of the probed slots; the first of equals.
  method NewestPosition(probed: map<nat, int>, n: nat) returns (newest: Search)
    requires forall k :: k in probed ==> k < n
    ensures if probed == map[] then newest == AllEmpty else newest.Found? && IsFirst(probed, newest.slot, n)
  {
    newest := AllEmpty;
    for position := 0 to n
      invariant newest.AllEmpty? ==> forall k :: k in probed ==> position <= k
      invariant newest.Found? ==> newest.slot < position && IsFirst(probed, newest.slot, position)
      invariant !newest.Failed?
    {
      if position in probed && (newest.AllEmpty? || probed[position] > probed[newest.slot]) {
        newest := Found(position);
      }
    }
    if newest.AllEmpty? {
      assert probed.Keys == {};
    }
  }

  // Of the probed slots before n, none is newer than p, and those before p are older.
  ghost predicate IsFirst(probed: map<nat, int>, p: nat, n: nat) {
    p in probed && forall k :: k in probed && k < n ==> if k < p then probed[k] < probed[p] else probed[k] <= probed[p]
  }

  // The slot before the next probed one after `newest`, or the last slot.
  method LastBeforeNextProbed(probed: map<nat, int>, newest: nat, n: nat) returns (end: nat)
    requires newest < n
    ensures newest <= end < n
    ensures end + 1 in probed || end + 1 == n
    ensures forall k :: newest < k <= end ==> k !in probed
  {
    end := newest;
    while end + 1 < n && end + 1 !in probed
      invariant newest <= end < n
      invariant forall k :: newest < k <= end ==> k !in probed
    {
      end := end + 1;
    }
  }

  method Unprobed(probed: map<nat, int>, start: nat, end: nat) returns (unprobed: seq<nat>)
    requires start <= end
    ensures StrictlyIncreasing(unprobed)
    ensures forall k :: k in unprobed <==> start <= k <= end && k !in probed
    ensures |unprobed| <= end - start + 1
    ensures start in probed ==> |unprobed| <= end - start
    ensures probed == map[] ==>
              |unprobed| == end - start + 1 && forall k :: 0 <= k < |unprobed| ==> unprobed[k] == start + k
  {
    unprobed := [];
    for position := start to end + 1
      invariant StrictlyIncreasing(unprobed)
      invariant forall k :: k in unprobed <==> start <= k < position && k !in probed
      invariant |unprobed| <= position - start
      invariant start in probed && start < position ==> |unprobed| < position - start
      invariant probed == map[] ==>
                  |unprobed| == position - start && forall k :: 0 <= k < |unprobed| ==> unprobed[k] == start + k
    {
      if position !in probed {
        assert forall k :: 0 <= k < |unprobed| ==> unprobed[k] in unprobed;
        unprobed := unprobed + [position];
      }
    }
  }

  ghost predicate ProbedFrom(ring: Ring, probed: map<nat, int>) {
    forall k :: k in probed ==> k < |ring| && ring[k] == Volume(probed[k])
  }

  // Once slot 0 is probed, a slot newer than every probed one can only lie
  // between the newest probed slot and the next probed slot.
  lemma NarrowedRange(ring: Ring, probed: map<nat, int>, newest: nat, end: nat, slot: nat)
    requires Rotated(ring) && ProbedFrom(ring, probed) && 0 in probed && newest in probed
    requires forall k :: k in probed ==> probed[k] <= probed[newest]
    requires end + 1 in probed || end + 1 == |ring|
    requires newest <= end < |ring| && slot < |ring| && ring[slot].Volume?
    requires forall i :: 0 <= i < |ring| && ring[i].Volume? ==> ring[i].modified <= ring[slot].modified
    ensures newest <= slot <= end
  {
    var boundary: nat :| RotatedAt(ring, boundary);
    assert ring[newest].modified == probed[newest] && ring[0].modified == probed[0];
    assert end + 1 in probed ==> ring[end + 1].modified == probed[end + 1];
  }

  // No pick lies after `newest` up to `next`.
  ghost predicate Gap(picks: seq<nat>, newest: nat, next: nat, n: nat) {
    newest in picks && newest <= next < n && forall k :: newest < k <= next ==> k !in picks
  }

  // The gaps between the first round's 32 picks hold at most 32 slots while the ring has at most 1024.
  lemma FirstRoundGaps(positions: seq<nat>, picks: seq<nat>, newest: nat, end: nat)
    requires 0 < |positions| <= 1024 && (forall k :: 0 <= k < |positions| ==> positions[k] == k)
    requires picks == Spread(positions, DISCOVERY_PROBES_PER_ROUND)
    requires Gap(picks, newest, end, |positions|)
    ensures end - newest <= DISCOVERY_PROBES_PER_ROUND
  {
    SpreadPicks(positions, DISCOVERY_PROBES_PER_ROUND);
    if |positions| > DISCOVERY_PROBES_PER_ROUND {
      var k: nat :| k < |picks| && picks[k] == newest;
      if k < 31 {
        NextPick(positions, k);
        assert picks[k + 1] in picks;
      } else {
        assert newest == |positions| - 1;
      }
    }
  }

  lemma NextPick(positions: seq<nat>, k: nat)
    requires DISCOVERY_PROBES_PER_ROUND < |positions| <= 1024
    requires forall i :: 0 <= i < |positions| ==> positions[i] == i
    requires k < 31
    ensures var picks := Sample(positions, DISCOVERY_PROBES_PER_ROUND); picks[k] < picks[k + 1] <= picks[k] + 33
  {
    SampleRises(positions, DISCOVERY_PROBES_PER_ROUND);
    NextIndex(k, |positions| - 1);
  }

  lemma NextIndex(k: nat, last: nat)
    requires last <= 1023
    ensures SpreadIndex(k + 1, last, 32) <= SpreadIndex(k, last, 32) + 33
  {
    assert (k + 1) * last == k * last + last;
  }

  datatype Round = AllHeld | SawEmpty | Lost(error: int)

  // A slot whose answer ends a round: a failed request, or an empty slot.
  ghost predicate IsFault(ring: Ring, failures: Failures, k: nat) {
    k < |ring| && (k in failures || ring[k].Empty?)
  }

  // Reads one round's answers in order: the first failed request fails the
  // search, and the first empty slot makes it fall back.
  method ReadRound(ring: Ring, failures: Failures, picks: seq<nat>, probed: map<nat, int>)
    returns (answer: Round, read: map<nat, int>, ghost fault: nat)
    requires ProbedFrom(ring, probed) && Answered(failures, probed.Keys)
    requires StrictlyIncreasing(picks) && forall k :: 0 <= k < |picks| ==> picks[k] < |ring|
    ensures !answer.AllHeld? ==> fault in picks && FaultIs(ring, failures, fault, answer)
                                 && forall k :: k in picks && k < fault ==> !IsFault(ring, failures, k)
    ensures answer.AllHeld? ==> && ProbedFrom(ring, read) && Answered(failures, read.Keys)
                                && forall k :: k in read <==> k in probed || k in picks
  {
    read, fault := probed, 0;
    for index := 0 to |picks|
      invariant ProbedFrom(ring, read) && Answered(failures, read.Keys)
      invariant forall k :: k in read <==> k in probed || k in picks[..index]
      invariant forall k :: 0 <= k < index ==> !IsFault(ring, failures, picks[k])
    {
      var position := picks[index];
      if position in failures {
        return Lost(failures[position]), read, position;
      }
      if ring[position].Empty? {
        return SawEmpty, read, position;
      }
      read := read[position := ring[position].modified];
    }
    answer := AllHeld;
  }

  // What a round makes of the first fault it reads.
  ghost predicate FaultIs(ring: Ring, failures: Failures, fault: nat, answer: Round) {
    && IsFault(ring, failures, fault)
    && answer == if fault in failures then Lost(failures[fault]) else SawEmpty
  }

  // The search between rounds: [start, end] runs from the newest probed slot to before the next.
  ghost predicate Narrowed(ring: Ring, failures: Failures, probed: map<nat, int>, start: nat, end: nat) {
    && ProbedFrom(ring, probed) && Answered(failures, probed.Keys) && 0 in probed && start in probed
    && start <= end < |ring| && (end + 1 in probed || end + 1 == |ring|)
    && IsFirst(probed, start, |ring|)
    && (forall k :: start < k <= end ==> k !in probed)
  }

  // ----- What the sampled search finds, on any ring of up to 1024 slots -----

  function Indices(n: nat): seq<nat> { seq(n, i => i) }

  // The slots of the first round.
  ghost function Picks(n: nat): set<nat> {
    set k | k in Spread(Indices(n), DISCOVERY_PROBES_PER_ROUND)
  }

  // With the slots after p up to the next first-round slot, all the slots probed in two rounds.
  ghost function TwoRounds(n: nat, p: nat): set<nat> {
    set k: nat | k < n && (k in Picks(n) || (p < k && NoPick(n, p, k)))
  }

  ghost predicate NoPick(n: nat, from: nat, to: nat) {
    forall k :: from < k <= to ==> k !in Picks(n)
  }

  // All these slots are populated, none is newer than p, and those before p are older.
  ghost predicate FirstNewest(ring: Ring, slots: set<nat>, p: nat) {
    && p in slots && p < |ring| && ring[p].Volume?
    && forall k :: k in slots && k < |ring| ==>
                     ring[k].Volume?
                     && if k < p then ring[k].modified < ring[p].modified else ring[k].modified <= ring[p].modified
  }

  ghost predicate MeetsFault(ring: Ring, failures: Failures, slots: set<nat>) {
    exists k :: k in slots && IsFault(ring, failures, k)
  }

  ghost predicate FirstFault(ring: Ring, failures: Failures, slots: set<nat>, k: nat) {
    k in slots && IsFault(ring, failures, k) && forall j :: j in slots && j < k ==> !IsFault(ring, failures, j)
  }

  // A failed request fails the search; an empty slot leaves it to the other search.
  ghost function AfterFault(ring: Ring, failures: Failures, k: nat): Search {
    if k in failures then Failed(failures[k]) else Outcome(ring, failures)
  }

  // The first newest slot of two rounds, unless they meet a fault: then the first
  // round's first fault decides, or else the second's.
  ghost predicate SampledFinds(ring: Ring, failures: Failures, found: Search) {
    var n := |ring|;
    if MeetsFault(ring, failures, Picks(n)) then Decided(ring, failures, Picks(n), found)
    else exists p :: FirstNewest(ring, Picks(n), p)
                     && if MeetsFault(ring, failures, TwoRounds(n, p))
                        then Decided(ring, failures, TwoRounds(n, p), found)
                        else found.Found? && FirstNewest(ring, TwoRounds(n, p), found.slot)
  }

  ghost predicate Decided(ring: Ring, failures: Failures, slots: set<nat>, found: Search) {
    exists k :: FirstFault(ring, failures, slots, k) && found == AfterFault(ring, failures, k)
  }

  // The slots whose answers decide: the first round's if one of them is a fault, else both rounds'.
  ghost predicate Deciding(ring: Ring, failures: Failures, slots: set<nat>) {
    var n := |ring|;
    if MeetsFault(ring, failures, Picks(n)) then slots == Picks(n)
    else exists p :: FirstNewest(ring, Picks(n), p) && slots == TwoRounds(n, p)
  }

  // A fault ends the search in failure: its own request fails, or the other search reaches one that does.
  ghost predicate FaultFails(ring: Ring, failures: Failures, k: nat)
    requires ring != []
  {
    k in failures || exists j :: j in failures && Reaches(ring, 0, |ring| - 1, j)
  }

  lemma FaultDecides(ring: Ring, failures: Failures, slots: set<nat>, found: Search, k: nat)
    requires ring != [] && Decided(ring, failures, slots, found) && FirstFault(ring, failures, slots, k)
    ensures found == AfterFault(ring, failures, k) && (found.Failed? <==> FaultFails(ring, failures, k))
  {
    FailsIfReached(ring, failures);
  }

  // The sampled search fails if and only if the first fault among the deciding
  // slots is a failed request, or is an empty slot and the other search reaches one.
  lemma SampledFails(ring: Ring, failures: Failures, found: Search, slots: set<nat>)
    requires ring != [] && SampledFinds(ring, failures, found) && Deciding(ring, failures, slots)
    ensures found.Failed? <==> exists k :: FirstFault(ring, failures, slots, k) && FaultFails(ring, failures, k)
    ensures forall k :: FirstFault(ring, failures, slots, k) ==> found == AfterFault(ring, failures, k)
  {
    if MeetsFault(ring, failures, slots) {
      DecidesAs(ring, failures, found, slots);
      forall k | FirstFault(ring, failures, slots, k)
        ensures found == AfterFault(ring, failures, k) && (found.Failed? <==> FaultFails(ring, failures, k))
      {
        FaultDecides(ring, failures, slots, found, k);
      }
    } else {
      NoFaultFinds(ring, failures, found, slots);
    }
  }

  lemma NoFaultFinds(ring: Ring, failures: Failures, found: Search, slots: set<nat>)
    requires SampledFinds(ring, failures, found) && Deciding(ring, failures, slots)
    requires !MeetsFault(ring, failures, slots)
    ensures found.Found? && FirstNewest(ring, slots, found.slot)
  {
    var p :| FirstNewest(ring, Picks(|ring|), p) && slots == TwoRounds(|ring|, p);
    SampledIsFirst(ring, failures, found, p);
  }

  lemma PicksAreProbed(ring: Ring, failures: Failures, p: nat)
    ensures MeetsFault(ring, failures, Picks(|ring|)) ==> MeetsFault(ring, failures, TwoRounds(|ring|, p))
  {
    if k :| k in Picks(|ring|) && IsFault(ring, failures, k) { assert k in TwoRounds(|ring|, p); }
  }

  lemma DecidesAs(ring: Ring, failures: Failures, found: Search, slots: set<nat>)
    requires SampledFinds(ring, failures, found) && Deciding(ring, failures, slots) && MeetsFault(ring, failures, slots)
    ensures Decided(ring, failures, slots, found)
  {
    var n := |ring|;
    if !MeetsFault(ring, failures, Picks(n)) {
      var p :| FirstNewest(ring, Picks(n), p) && slots == TwoRounds(n, p);
      var q :| FirstNewest(ring, Picks(n), q)
               && if MeetsFault(ring, failures, TwoRounds(n, q)) then Decided(ring, failures, TwoRounds(n, q), found)
                  else found.Found? && FirstNewest(ring, TwoRounds(n, q), found.slot);
      FirstNewestIsUnique(ring, Picks(n), p, q);
    }
  }

  lemma FirstNewestIsUnique(ring: Ring, slots: set<nat>, p: nat, q: nat)
    requires FirstNewest(ring, slots, p) && FirstNewest(ring, slots, q)
    ensures p == q
  {
  }

  // Where the two rounds meet no fault, the sampled search finds a newest
  // slot if and only if one is probed: it is a first-round slot, or lies
  // between the first newest of those and the next.
  lemma SampledIsNewest(ring: Ring, failures: Failures, found: Search, p: nat)
    requires SampledFinds(ring, failures, found) && FirstNewest(ring, Picks(|ring|), p)
    requires !MeetsFault(ring, failures, TwoRounds(|ring|, p))
    ensures Newest(ring, found) <==> exists k :: k in TwoRounds(|ring|, p) && Newest(ring, Found(k))
  {
    SampledIsFirst(ring, failures, found, p);
  }

  lemma EndsArePicks(n: nat)
    requires n > 0
    ensures 0 in Picks(n) && n - 1 in Picks(n)
  {
    SpreadPicks(Indices(n), DISCOVERY_PROBES_PER_ROUND);
    var picks := Spread(Indices(n), DISCOVERY_PROBES_PER_ROUND);
    assert picks[0] in picks && picks[|picks| - 1] in picks;
  }

  // Where values rise to one strict drop, ties inside a rise allowed, that is so
  // if and only if the first newest of the first-round slots is a newest slot
  // already, or every later first-round slot is older than it.
  lemma TiedSampledIsNewest(ring: Ring, failures: Failures, found: Search, boundary: nat, p: nat)
    requires RotatedAt(ring, boundary) && SampledFinds(ring, failures, found) && FirstNewest(ring, Picks(|ring|), p)
    requires !MeetsFault(ring, failures, TwoRounds(|ring|, p))
    ensures Newest(ring, found) <==>
            || Newest(ring, Found(p))
            || forall q :: q in Picks(|ring|) && p < q < |ring| ==> ring[q].modified < ring[p].modified
  {
    SampledIsNewest(ring, failures, found, p);
    EndsArePicks(|ring|);
    if Newest(ring, Found(p)) {
      assert p in TwoRounds(|ring|, p);
    } else if forall q :: q in Picks(|ring|) && p < q < |ring| ==> ring[q].modified < ring[p].modified {
      var m := LinearScan(ring).slot;
      NewestIsProbed(ring, boundary, p, m);
    } else {
      var q :| q in Picks(|ring|) && p < q < |ring| && ring[q].modified >= ring[p].modified;
      forall k | k in TwoRounds(|ring|, p) ensures !Newest(ring, Found(k)) {
        if Newest(ring, Found(k)) { TieHides(ring, boundary, p, q, k); }
      }
    }
  }

  lemma NewestIsProbed(ring: Ring, boundary: nat, p: nat, m: nat)
    requires RotatedAt(ring, boundary) && FirstNewest(ring, Picks(|ring|), p) && 0 in Picks(|ring|)
    requires forall q :: q in Picks(|ring|) && p < q < |ring| ==> ring[q].modified < ring[p].modified
    requires Newest(ring, Found(m)) && ring[m].modified > ring[p].modified
    ensures m in TwoRounds(|ring|, p)
  {
    assert ring[0].modified <= ring[p].modified;
    assert p < m;
    assert NoPick(|ring|, p, m);
  }

  // A later first-round slot as new as p hides what lies between them.
  lemma TieHides(ring: Ring, boundary: nat, p: nat, q: nat, k: nat)
    requires RotatedAt(ring, boundary) && FirstNewest(ring, Picks(|ring|), p)
    requires q in Picks(|ring|) && p < q < |ring| && ring[q].modified >= ring[p].modified
    requires k in TwoRounds(|ring|, p) && Newest(ring, Found(k))
    ensures Newest(ring, Found(p))
  {
    if k !in Picks(|ring|) {
      assert NoPick(|ring|, p, k);
      assert k < q;
    }
  }

  lemma SpreadOf34(step: nat)
    requires step < 32
    ensures SpreadIndex(step, 33, 32) == if step < 16 then step else if step < 31 then step + 1 else 33
  {
  }

  function Pick34(step: nat): nat { if step < 16 then step else if step < 31 then step + 1 else 33 }

  lemma SpreadIs34()
    ensures var picks := Spread(Indices(34), DISCOVERY_PROBES_PER_ROUND);
            |picks| == 32 && forall step: nat :: step < 32 ==> picks[step] == Pick34(step)
  {
    var positions := Indices(34);
    SpreadPicks(positions, DISCOVERY_PROBES_PER_ROUND);
    SampleRises(positions, DISCOVERY_PROBES_PER_ROUND);
    forall step: nat | step < 32 ensures Sample(positions, DISCOVERY_PROBES_PER_ROUND)[step] == Pick34(step) {
      SpreadOf34(step);
    }
  }

  lemma PicksOf34(k: nat)
    ensures k in Picks(34) <==> k < 34 && k != 16 && k != 32
  {
    SpreadIs34();
    var picks := Spread(Indices(34), DISCOVERY_PROBES_PER_ROUND);
    if k < 34 && k != 16 && k != 32 {
      var step := if k < 16 then k else if k < 32 then k - 1 else 31;
      assert picks[step] == Pick34(step) == k;
    }
    if k in picks {
      var step: nat :| step < 32 && picks[step] == k;
      assert Pick34(step) == k;
    }
  }

  function TiedRing(): Ring { seq(34, i => Volume(if i < 16 then 3 else if i == 16 then 5 else 1)) }

  lemma TiedRounds()
    ensures FirstNewest(TiedRing(), Picks(34), 0) && TwoRounds(34, 0) == Picks(34) && 16 !in Picks(34)
  {
    forall k: nat ensures k in Picks(34) <==> k < 34 && k != 16 && k != 32 { PicksOf34(k); }
    forall k: nat | k in TwoRounds(34, 0) ensures k in Picks(34) {
      assert 1 in Picks(34);
      if 0 < k { assert !NoPick(34, 0, k); }
    }
  }

  // Ties inside a rise defeat the sampled search, though not the other one. Here
  // slots 0 to 15 hold 3, slot 16 holds 5 and the rest hold 1: the first round
  // passes over slot 16, and the first of the ties is next to another probed slot.
  lemma TieInRise(found: Search)
    requires SampledFinds(TiedRing(), map[], found)
    ensures RotatedAt(TiedRing(), 17) && Newest(TiedRing(), Found(16)) && Newest(TiedRing(), Searched(TiedRing()))
    ensures found == Found(0) && !Newest(TiedRing(), found)
  {
    var ring := TiedRing();
    RotatedIsSearched(ring, 17);
    TiedRounds();
    SampledIsFirst(ring, map[], found, 0);
    FirstNewestIsUnique(ring, Picks(34), found.slot, 0);
    assert ring[16].modified > ring[0].modified;
  }

  lemma SampledIsFirst(ring: Ring, failures: Failures, found: Search, p: nat)
    requires SampledFinds(ring, failures, found) && FirstNewest(ring, Picks(|ring|), p)
    requires !MeetsFault(ring, failures, TwoRounds(|ring|, p))
    ensures found.Found? && FirstNewest(ring, TwoRounds(|ring|, p), found.slot)
  {
    var n := |ring|;
    PicksAreProbed(ring, failures, p);
    var q :| FirstNewest(ring, Picks(n), q)
             && if MeetsFault(ring, failures, TwoRounds(n, q)) then Decided(ring, failures, TwoRounds(n, q), found)
                else found.Found? && FirstNewest(ring, TwoRounds(n, q), found.slot);
    FirstNewestIsUnique(ring, Picks(n), p, q);
  }

  // ----- The rounds -----

  // What each number of rounds has settled on a ring of at most 1024 slots.
  ghost predicate RoundsSoFar(ring: Ring, rounds: nat, requests: nat, probed: map<nat, int>, start: nat, end: nat) {
    && rounds <= 2 && requests <= rounds * DISCOVERY_PROBES_PER_ROUND
    && (rounds == 1 ==> end - start <= DISCOVERY_PROBES_PER_ROUND && probed.Keys == Picks(|ring|))
    && (rounds == 2 ==> end == start && ProbedInTwo(ring, probed))
  }

  ghost predicate ProbedInTwo(ring: Ring, probed: map<nat, int>) {
    exists p :: FirstNewest(ring, Picks(|ring|), p) && probed.Keys == TwoRounds(|ring|, p)
  }

  lemma NarrowedIsFirst(ring: Ring, failures: Failures, probed: map<nat, int>, start: nat, end: nat)
    requires Narrowed(ring, failures, probed, start, end)
    ensures FirstNewest(ring, probed.Keys, start)
  {
  }

  lemma SecondRound(ring: Ring, failures: Failures, probed: map<nat, int>, start: nat, end: nat,
                    read: map<nat, int>, newest: nat, next: nat)
    requires Narrowed(ring, failures, probed, start, end)
    requires Narrowed(ring, failures, read, newest, next)
    requires forall k :: k in read <==> k in probed || start < k <= end
    ensures next == newest
  {
    assert ring[newest] == Volume(read[newest]) && ring[start] == Volume(read[start]);
    assert newest in probed ==> ring[newest] == Volume(probed[newest]);
    assert start <= newest <= end;
    assert newest + 1 in read || newest + 1 == |ring|;
  }

  // The second round probes what lies between the newest first-round slot and the next.
  lemma SecondRoundProbes(ring: Ring, failures: Failures, probed: map<nat, int>, start: nat, end: nat, slots: set<nat>)
    requires Narrowed(ring, failures, probed, start, end) && probed.Keys == Picks(|ring|)
    requires forall k :: k in slots <==> k in probed || start < k <= end
    ensures slots == TwoRounds(|ring|, start) && FirstNewest(ring, Picks(|ring|), start)
  {
    NarrowedIsFirst(ring, failures, probed, start, end);
    forall k: nat ensures k in slots <==> k in TwoRounds(|ring|, start) {
      if k in TwoRounds(|ring|, start) && k !in Picks(|ring|) {
        assert NoPick(|ring|, start, k);
        assert end + 1 < |ring| ==> end + 1 in Picks(|ring|);
      }
    }
  }

  // A narrowed search with nothing left to probe has found the newest slot.
  lemma Exhausted(ring: Ring, failures: Failures, probed: map<nat, int>, start: nat, end: nat)
    requires Rotated(ring) && Narrowed(ring, failures, probed, start, end)
    requires forall k :: start <= k <= end ==> k in probed
    ensures LinearScan(ring) == Found(start)
  {
    assert start == end by { assert end in probed; }
    var scanned := LinearScan(ring);
    NarrowedRange(ring, probed, start, end, scanned.slot);
  }

  lemma AtMost(slots: set<nat>, n: nat)
    requires forall k :: k in slots ==> k < n
    ensures |slots| <= n
  {
    if n == 0 {
      assert slots == {};
    } else {
      AtMost(slots - {n - 1}, n - 1);
      assert |slots| <= |slots - {n - 1}| + 1;
    }
  }

  lemma Grew(before: set<nat>, after: set<nat>, pick: nat, n: nat)
    requires before <= after && pick in after && pick !in before && forall k :: k in after ==> k < n
    ensures |before| < |after| <= n
  {
    Enlarging(before + {pick}, after);
    AtMost(after, n);
  }

  // Where the search stands before its first round and after each round.
  ghost predicate SearchState(ring: Ring, failures: Failures, rounds: nat, requests: nat,
                              probed: map<nat, int>, start: nat, end: nat) {
    && (if rounds == 0 then probed == map[] && start == 0 && end + 1 == |ring|
        else Narrowed(ring, failures, probed, start, end))
    && (|ring| <= 1024 ==> RoundsSoFar(ring, rounds, requests, probed, start, end))
    && forall k :: k in probed ==> k < |ring|
  }

  // What the picks of a round cover.
  ghost predicate Picked(ring: Ring, probed: map<nat, int>, start: nat, end: nat, picks: seq<nat>) {
    && StrictlyIncreasing(picks) && |picks| <= DISCOVERY_PROBES_PER_ROUND
    && (forall k :: k in picks ==> start <= k <= end && k !in probed)
    && (picks == [] ==> forall k :: start <= k <= end ==> k in probed)
    && (start in probed && end - start <= DISCOVERY_PROBES_PER_ROUND ==>
          forall k :: start <= k <= end ==> k in probed || k in picks)
    && (probed == map[] ==> picks != [] && picks[0] == start)
    && (probed == map[] && start == 0 && |ring| == end + 1 ==> PickedFirst(ring, picks))
  }

  // The picks of a first round.
  ghost predicate PickedFirst(ring: Ring, picks: seq<nat>) {
    && (forall k :: k in picks <==> k in Picks(|ring|))
    && (|ring| <= 1024 ==>
          forall newest: nat, next: nat :: Gap(picks, newest, next, |ring|) ==>
            next - newest <= DISCOVERY_PROBES_PER_ROUND)
  }

  // What a round's answers, all populated, add to `probed`.
  ghost predicate RoundRead(ring: Ring, probed: map<nat, int>, start: nat, end: nat, picks: seq<nat>, read: map<nat,
                            int>) {
    Picked(ring, probed, start, end, picks) && forall k :: k in read <==> k in probed || k in picks
  }

  lemma FirstPicks(ring: Ring, picks: seq<nat>)
    requires ring != [] && picks == Spread(Indices(|ring|), DISCOVERY_PROBES_PER_ROUND)
    ensures PickedFirst(ring, picks)
  {
    if |ring| <= 1024 {
      forall newest: nat, next: nat | Gap(picks, newest, next, |ring|)
        ensures next - newest <= DISCOVERY_PROBES_PER_ROUND
      {
        FirstRoundGaps(Indices(|ring|), picks, newest, next);
      }
    }
  }

  method PickRound(ring: Ring, probed: map<nat, int>, start: nat, end: nat) returns (picks: seq<nat>)
    requires start <= end < |ring|
    ensures Picked(ring, probed, start, end, picks)
  {
    var unprobed := Unprobed(probed, start, end);
    picks := Spread(unprobed, DISCOVERY_PROBES_PER_ROUND);
    SpreadPicks(unprobed, DISCOVERY_PROBES_PER_ROUND);
    if probed == map[] && start == 0 && |ring| == end + 1 {
      assert unprobed == Indices(|ring|);
      FirstPicks(ring, picks);
    }
  }

  // The first fault among a round's picks.
  ghost predicate PicksFault(ring: Ring, failures: Failures, picks: seq<nat>, fault: nat) {
    fault in picks && IsFault(ring, failures, fault)
    && forall k :: k in picks && k < fault ==> !IsFault(ring, failures, k)
  }

  // One concurrent round: what it picked, how its answers read, and what is probed after it.
  method ProbeRound(ring: Ring, failures: Failures, probed: map<nat, int>, start: nat, end: nat)
    returns (picks: seq<nat>, answer: Round, read: map<nat, int>, ghost fault: nat)
    requires start <= end < |ring| && ProbedFrom(ring, probed) && Answered(failures, probed.Keys)
    ensures Picked(ring, probed, start, end, picks)
    ensures !answer.AllHeld? ==> FaultIs(ring, failures, fault, answer) && PicksFault(ring, failures, picks, fault)
    ensures answer.AllHeld? ==> && ProbedFrom(ring, read) && Answered(failures, read.Keys)
                                && RoundRead(ring, probed, start, end, picks, read)
  {
    picks := PickRound(ring, probed, start, end);
    assert forall k :: 0 <= k < |picks| ==> picks[k] in picks;
    answer, read, fault := ReadRound(ring, failures, picks, probed);
  }

  method Narrow(ring: Ring, failures: Failures, probed: map<nat, int>) returns (start: nat, end: nat)
    requires ProbedFrom(ring, probed) && Answered(failures, probed.Keys) && 0 in probed
    ensures Narrowed(ring, failures, probed, start, end)
  {
    var newest := NewestPosition(probed, |ring|);
    start := newest.slot;
    end := LastBeforeNextProbed(probed, start, |ring|);
  }

  lemma RoundAdvances(ring: Ring, failures: Failures, rounds: nat, requests: nat, probed: map<nat, int>,
                      start: nat, end: nat, picks: seq<nat>, read: map<nat, int>, newest: nat, next: nat)
    requires SearchState(ring, failures, rounds, requests, probed, start, end)
    requires picks != [] && RoundRead(ring, probed, start, end, picks, read)
    requires Narrowed(ring, failures, read, newest, next)
    ensures SearchState(ring, failures, rounds + 1, requests + |picks|, read, newest, next)
    ensures |ring| <= 1024 ==> rounds <= 1
  {
    assert picks[0] in picks;
    if rounds == 0 {
      assert Gap(picks, newest, next, |ring|);
      if |ring| <= 1024 { assert read.Keys == Picks(|ring|); }
    } else if end - start <= DISCOVERY_PROBES_PER_ROUND {
      SecondRound(ring, failures, probed, start, end, read, newest, next);
      if |ring| <= 1024 && rounds == 1 { SecondRoundProbes(ring, failures, probed, start, end, read.Keys); }
    }
  }

  // The first fault in either of two rounds decides.
  lemma FaultInRound(ring: Ring, failures: Failures, rounds: nat, requests: nat, probed: map<nat, int>,
                     start: nat, end: nat, picks: seq<nat>, fault: nat)
    requires 0 < |ring| <= 1024 && SearchState(ring, failures, rounds, requests, probed, start, end)
    requires Picked(ring, probed, start, end, picks) && PicksFault(ring, failures, picks, fault)
    ensures SampledFinds(ring, failures, AfterFault(ring, failures, fault))
  {
    var n := |ring|;
    if rounds == 0 {
      assert FirstFault(ring, failures, Picks(n), fault);
    } else {
      var slots := set k: nat | k < n && (k in probed || start < k <= end);
      SecondRoundProbes(ring, failures, probed, start, end, slots);
      NoneProbedIsFault(ring, failures, probed);
      assert !MeetsFault(ring, failures, Picks(n));
      assert FirstFault(ring, failures, TwoRounds(n, start), fault);
    }
  }

  lemma NoneProbedIsFault(ring: Ring, failures: Failures, probed: map<nat, int>)
    requires ProbedFrom(ring, probed) && Answered(failures, probed.Keys)
    ensures forall k :: k in probed ==> !IsFault(ring, failures, k)
  {
  }

  // A search with nothing left to probe answers with the first newest of its two rounds.
  lemma RoundsFind(ring: Ring, failures: Failures, rounds: nat, requests: nat, probed: map<nat, int>, start: nat,
                   end: nat)
    requires 0 < |ring| <= 1024 && SearchState(ring, failures, rounds, requests, probed, start, end)
    requires forall k :: start <= k <= end ==> k in probed
    ensures SampledFinds(ring, failures, Found(start))
  {
    assert start in probed;
    NarrowedIsFirst(ring, failures, probed, start, end);
    if rounds == 1 { SecondRoundProbes(ring, failures, probed, start, end, probed.Keys); }
    var p :| FirstNewest(ring, Picks(|ring|), p) && probed.Keys == TwoRounds(|ring|, p);
    NoneProbedIsFault(ring, failures, probed);
    assert !MeetsFault(ring, failures, TwoRounds(|ring|, p));
    PicksAreProbed(ring, failures, p);
  }

  // A third round never starts on a ring of up to 1024 slots.
  lemma LastRound(ring: Ring, failures: Failures, rounds: nat, requests: nat, probed: map<nat, int>,
                  start: nat, end: nat, picks: seq<nat>)
    requires SearchState(ring, failures, rounds, requests, probed, start, end)
    requires picks != [] && Picked(ring, probed, start, end, picks)
    ensures |ring| <= 1024 ==> rounds <= 1 && requests + |picks| <= 64
  {
    assert picks[0] in picks;
  }

  // What an answer is worth: on a rotated ring, and on any ring of up to 1024
  // slots, which covers the 999 a provider has.
  ghost predicate Answers(ring: Ring, failures: Failures, r: Search) {
    && (if r.Failed? then FailedAt(failures, failures.Keys, r.error) else Rotated(ring) ==> r == LinearScan(ring))
    && (0 < |ring| <= 1024 ==> SampledFinds(ring, failures, r))
  }

  // A round met a fault: a failed request is the answer, and for an empty slot the other search answers.
  method FallBack(ring: Ring, failures: Failures, ghost rounds: nat, ghost requests: nat, ghost probed: map<nat, int>,
                  ghost start: nat, ghost end: nat, ghost picks: seq<nat>, answer: Round, ghost fault: nat)
    returns (r: Search, ghost more: nat)
    requires ring != [] && SearchState(ring, failures, rounds, requests, probed, start, end)
    requires Picked(ring, probed, start, end, picks) && PicksFault(ring, failures, picks, fault)
    requires !answer.AllHeld? && FaultIs(ring, failures, fault, answer)
    ensures Answers(ring, failures, r)
    ensures answer.Lost? ==> more == 0
  {
    if |ring| <= 1024 { FaultInRound(ring, failures, rounds, requests, probed, start, end, picks, fault); }
    if answer.Lost? { return Failed(answer.error), 0; }
    ghost var requested;
    r, requested, more := RotatedMax(ring, failures);
    if !r.Failed? && Rotated(ring) { NewestIsLinearScan(ring, r); }
  }

  // Nothing is left to probe.
  lemma Settled(ring: Ring, failures: Failures, rounds: nat, requests: nat, probed: map<nat, int>, start: nat, end: nat)
    requires ring != [] && SearchState(ring, failures, rounds, requests, probed, start, end)
    requires forall k :: start <= k <= end ==> k in probed
    ensures Answers(ring, failures, Found(start)) && FirstNewest(ring, probed.Keys, start)
    ensures |ring| <= 1024 ==> rounds <= 2 && requests <= 64
  {
    assert start in probed;
    NarrowedIsFirst(ring, failures, probed, start, end);
    if Rotated(ring) { Exhausted(ring, failures, probed, start, end); }
    if |ring| <= 1024 { RoundsFind(ring, failures, rounds, requests, probed, start, end); }
  }

  // The range the next round probes, once every answer of a round is in.
  method NextRound(ring: Ring, failures: Failures, ghost rounds: nat, ghost requests: nat, ghost probed: map<nat, int>,
                   ghost start: nat, ghost end: nat, ghost picks: seq<nat>, read: map<nat, int>)
    returns (newest: nat, next: nat)
    requires SearchState(ring, failures, rounds, requests, probed, start, end) && start <= end < |ring|
    requires ProbedFrom(ring, read) && Answered(failures, read.Keys)
    requires picks != [] && RoundRead(ring, probed, start, end, picks, read)
    ensures SearchState(ring, failures, rounds + 1, requests + |picks|, read, newest, next)
    ensures |probed.Keys| < |read.Keys| <= |ring| && newest <= next < |ring|
  {
    assert picks[0] in picks;
    Grew(probed.Keys, read.Keys, picks[0], |ring|);
    newest, next := Narrow(ring, failures, read);
    RoundAdvances(ring, failures, rounds, requests, probed, start, end, picks, read, newest, next);
  }

  method SampledRotatedMax(ring: Ring, failures: Failures)
    returns (r: Search, ghost rounds: nat, ghost requests: nat)
    ensures Answers(ring, failures, r)
    ensures Dense(ring) && |ring| <= 1024 ==> rounds <= 2 && requests <= 64
  {
    rounds, requests := 0, 0;
    var n := |ring|;
    if n == 0 {
      return AllEmpty, rounds, requests;
    }
    var probed: map<nat, int> := map[];
    var start: nat, end: nat := 0, n - 1;
    while true
      invariant SearchState(ring, failures, rounds, requests, probed, start, end) && |probed.Keys| <= n
      decreases n - |probed.Keys|
    {
      var picks, answer, read;
      ghost var fault;
      picks, answer, read, fault := ProbeRound(ring, failures, probed, start, end);
      if picks == [] {
        break;
      }
      LastRound(ring, failures, rounds, requests, probed, start, end, picks);
      if !answer.AllHeld? {
        ghost var more;
        r, more := FallBack(ring, failures, rounds, requests, probed, start, end, picks, answer, fault);
        return r, rounds + 1, requests + |picks| + more;
      }
      start, end := NextRound(ring, failures, rounds, requests, probed, start, end, picks, read);
      probed, rounds, requests := read, rounds + 1, requests + |picks|;
    }
    Settled(ring, failures, rounds, requests, probed, start, end);
    r := NewestPosition(probed, n);
  }
}
