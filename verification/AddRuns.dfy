/** Whole runs of add_beacon calls on one request, and bounded filtering of cells as truncated sorting. */
module AddRuns {
  import opened Beacons
  import opened Prelude
  import opened SeqFacts
  import opened RequestList
  import opened Filtering

  /** A call: the settings in force and the beacon, validated and stamped with its age. */
  datatype Call = Call(policy: Policy, beacon: Beacon)

  predicate Acceptable(call: Call) {
    Sound(call.policy) && ValidBeacon(call.beacon)
  }

  /** Call i is acceptable and takes the request from lists[i] to lists[i + 1]. */
  ghost predicate StepAt(calls: seq<Call>, lists: seq<List>, i: nat)
    requires i < |calls| && |lists| == |calls| + 1
  {
    Acceptable(calls[i]) && AddStep(calls[i].policy, lists[i], calls[i].beacon, lists[i + 1])
  }

  /** lists[i] is the request after the first i calls, starting empty. */
  ghost predicate IsRun(calls: seq<Call>, lists: seq<List>) {
    && |lists| == |calls| + 1 && lists[0] == []
    && forall i: nat | i < |calls| :: StepAt(calls, lists, i)
  }

  ghost predicate OnePolicy(calls: seq<Call>, c: Policy) {
    forall i | 0 <= i < |calls| :: calls[i].policy == c
  }

  /** Throughout a run, whatever beacons arrive and however the settings change between calls, the list is valid,
      sorted and free of duplicates and fits the context's array with its overflow slot free. */
  lemma {:induction false} RunsKeepInvariant(calls: seq<Call>, lists: seq<List>, i: nat)
    requires IsRun(calls, lists) && i <= |calls|
    ensures Invariant(lists[i]) && HasRoom(lists[i])
  {
    if i > 0 {
      RunsKeepInvariant(calls, lists, i - 1);
      InvariantNext(calls, lists, i - 1);
    }
  }

  lemma {:induction false} InvariantNext(calls: seq<Call>, lists: seq<List>, i: nat)
    requires IsRun(calls, lists) && i < |calls| && Invariant(lists[i]) && HasRoom(lists[i])
    ensures Invariant(lists[i + 1]) && HasRoom(lists[i + 1])
  {
    assert StepAt(calls, lists, i);
    AddStepKeeps(calls[i].policy, lists[i], calls[i].beacon, lists[i + 1]);
  }

  /** While the settings stay the same, both limits hold throughout. */
  lemma {:induction false} RunsKeepLimits(calls: seq<Call>, lists: seq<List>, c: Policy, i: nat)
    requires IsRun(calls, lists) && i <= |calls| && OnePolicy(calls, c) && Sound(c)
    ensures Invariant(lists[i]) && InLimits(lists[i], c.limits) && Fits(lists[i], c.limits)
  {
    if i > 0 {
      RunsKeepLimits(calls, lists, c, i - 1);
      LimitsStep(calls, lists, c, i - 1);
    } else {
      EmptyInLimits(c);
    }
  }

  lemma {:induction false} StepUnder(calls: seq<Call>, lists: seq<List>, c: Policy, i: nat)
    requires IsRun(calls, lists) && OnePolicy(calls, c) && Sound(c) && i < |calls|
    ensures ValidBeacon(calls[i].beacon) && AddStep(c, lists[i], calls[i].beacon, lists[i + 1])
  {
    assert StepAt(calls, lists, i);
  }

  lemma {:induction false} LimitsStep(calls: seq<Call>, lists: seq<List>, c: Policy, i: nat)
    requires IsRun(calls, lists) && OnePolicy(calls, c) && Sound(c) && i < |calls|
    requires InLimits(lists[i], c.limits) && Fits(lists[i], c.limits)
    ensures Invariant(lists[i + 1]) && InLimits(lists[i + 1], c.limits) && Fits(lists[i + 1], c.limits)
  {
    RunsKeepInvariant(calls, lists, i);
    StepUnder(calls, lists, c, i);
    AddStepKeeps(c, lists[i], calls[i].beacon, lists[i + 1]);
  }

  lemma {:induction false} EmptyInLimits(c: Policy)
    requires Sound(c)
    ensures Invariant([]) && InLimits([], c.limits) && Fits([], c.limits)
  {}

  /** The same in plain terms: access points are exactly the first entries, no two beacons are equal, access points fall
      in effective strength, and of two cells the plugin never ranks the later one above the earlier. */
  lemma {:induction false} RunsInPlainTerms(calls: seq<Call>, lists: seq<List>, n: nat)
    requires IsRun(calls, lists) && n <= |calls|
    ensures var s := lists[n];
            && |s| <= 28 && NumAps(s) <= 20
            && (forall i | 0 <= i < |s| :: (s[i].Ap? <==> i < NumAps(s)) && (s[i].Cell? <==> i >= NumAps(s)))
            && (forall i, j | 0 <= i < j < |s| :: !Equal(s[i], s[j]))
            && (forall i, j | 0 <= i < j < NumAps(s) :: EffectiveRssi(s[i].h.rssi) >= EffectiveRssi(s[j].h.rssi))
            && (forall i, j | NumAps(s) <= i < j < |s| :: Compare(s[i], s[j]).Some? && Compare(s[i], s[j]).value >= 0)
  {
    var s := lists[n];
    RunsKeepInvariant(calls, lists, n);
    ApsArePrefix(s);
    RankMeaning(s);
    forall i, j | 0 <= i < j < |s| ensures !Equal(s[i], s[j]) {
      assert Unequal(s[i], s[j]);
    }
  }

  // ----- sightings over runs -----

  /** No entry for x is older than age. */
  ghost predicate NoOlder(s: List, x: Beacon, age: Uint32) {
    forall e | e in s && Equal(x, e) :: e.h.age <= age
  }

  lemma {:induction false} MergedNoOlder(s: List, b: Beacon, x: Beacon, age: Uint32)
    requires Invariant(s) && ValidBeacon(b) && FindDuplicate(s, x) < |s| && NoOlder(s, x, age)
    ensures NoOlder(Merged(s, b), x, age)
  {
    var dx := FindDuplicate(s, x);
    forall e | e in Merged(s, b) && Equal(x, e) ensures e.h.age <= age {
      MergeOnlyAdds(s, b);
      if e == b {
        EqualIsPartialEquivalence(x, b, x);
        EqualIsPartialEquivalence(b, x, s[dx]);
        assert FindDuplicate(s, b) < |s|;
        EqualIsPartialEquivalence(x, b, s[FindDuplicate(s, b)]);
        BetterSightingStays(s, b);
      }
    }
  }

  /** Right after a sighting is added no entry for it is older. */
  lemma {:induction false} SightedNoOlder(s: List, b: Beacon)
    requires Invariant(s) && ValidBeacon(b)
    ensures NoOlder(Merged(s, b), b, b.h.age)
  {
    var d := FindDuplicate(s, b);
    forall e | e in Merged(s, b) && Equal(b, e) ensures e.h.age <= b.h.age {
      MergeOnlyAdds(s, b);
      if e != b {
        var k :| 0 <= k < |s| && s[k] == e;
        SameEntry(s, b, d, k);
        BetterSightingStays(s, b);
      }
    }
  }

  lemma {:induction false} StepNoOlder(c: Policy, s: List, b: Beacon, s': List, x: Beacon, age: Uint32)
    requires Sound(c) && AddStep(c, s, b, s') && NoOlder(Merged(s, b), x, age)
    ensures NoOlder(s', x, age)
  {
    StepWithinMerged(c, s, b, s');
  }

  lemma {:induction false} StepWithinMerged(c: Policy, s: List, b: Beacon, s': List)
    requires Sound(c) && AddStep(c, s, b, s')
    ensures forall e | e in s' :: e in Merged(s, b)
  {
    var t := Merged(s, b);
    if s' != t && NumAps(t) > c.limits.maxApBeacons {
      var v: nat :| v < |t| && IsVictim(ApsOf(t), c.negRssiThreshold, v) && s' == Without(t, v);
      WithoutMembers(t, v);
    }
  }

  /** As long as a beacon stays in the list, its entry is never older than any sighting of it that was added. */
  lemma {:induction false} YoungestSightingStays(calls: seq<Call>, lists: seq<List>, i: nat, j: nat)
    requires IsRun(calls, lists) && i < j <= |calls|
    requires forall k | i < k < j :: FindDuplicate(lists[k], calls[i].beacon) < |lists[k]|
    ensures NoOlder(lists[j], calls[i].beacon, calls[i].beacon.h.age)
    decreases j
  {
    if j == i + 1 {
      SightedNext(calls, lists, i);
    } else {
      YoungestSightingStays(calls, lists, i, j - 1);
      StillYoungest(calls, lists, calls[i].beacon, j - 1);
    }
  }

  lemma {:induction false} SightedNext(calls: seq<Call>, lists: seq<List>, i: nat)
    requires IsRun(calls, lists) && i < |calls|
    ensures NoOlder(lists[i + 1], calls[i].beacon, calls[i].beacon.h.age)
  {
    RunsKeepInvariant(calls, lists, i);
    assert StepAt(calls, lists, i);
    SightedNoOlder(lists[i], calls[i].beacon);
    StepNoOlder(calls[i].policy, lists[i], calls[i].beacon, lists[i + 1], calls[i].beacon, calls[i].beacon.h.age);
  }

  lemma {:induction false} StillYoungest(calls: seq<Call>, lists: seq<List>, x: Beacon, j: nat)
    requires IsRun(calls, lists) && j < |calls| && FindDuplicate(lists[j], x) < |lists[j]|
    requires NoOlder(lists[j], x, x.h.age)
    ensures NoOlder(lists[j + 1], x, x.h.age)
  {
    RunsKeepInvariant(calls, lists, j);
    assert StepAt(calls, lists, j);
    MergedNoOlder(lists[j], calls[j].beacon, x, x.h.age);
    StepNoOlder(calls[j].policy, lists[j], calls[j].beacon, lists[j + 1], x, x.h.age);
  }

  // ----- connected cells over runs -----

  /** A cell that a step lets go, other than one replaced by a new sighting of itself, goes with a list in which it
      would come last: it is connected only if every cell that stays is. */
  lemma {:induction false} ConnectedCellsGoLast(c: Policy, s: List, b: Beacon, s': List, x: Beacon)
    requires Sound(c) && Invariant(s) && ValidBeacon(b) && AddStep(c, s, b, s')
    requires x in Merged(s, b) && x.Cell? && x !in s' && x.h.connected
    ensures forall y | y in s' && y.Cell? :: y.h.connected
  {
    var t := Merged(s, b);
    MergedKeeps(s, b);
    ApsArePrefix(t);
    var k :| 0 <= k < |t| && t[k] == x;
    if NumAps(t) > c.limits.maxApBeacons {
      var v: nat :| v < |t| && IsVictim(ApsOf(t), c.negRssiThreshold, v) && s' == Without(t, v);
      OthersStay(t, v, k);
    } else {
      LastConnected(t, s', k);
    }
  }

  lemma {:induction false} LastConnected(t: List, s': List, k: nat)
    requires Invariant(t) && k < |t| && s' == t[..|t| - 1] && t[k] !in s' && t[k].Cell? && t[k].h.connected
    ensures forall y | y in s' && y.Cell? :: y.h.connected
  {
    forall i | 0 <= i < |t| - 1 ensures t[i] in s' {
      assert s'[i] == t[i];
    }
    forall y | y in s' && y.Cell? ensures y.h.connected {
      var i :| 0 <= i < |s'| && s'[i] == y;
      CellsInPlainTerms(t, i, k);
    }
  }

  lemma {:induction false} OthersStay(t: List, v: nat, k: nat)
    requires v < |t| && k < |t| && k != v
    ensures t[k] in Without(t, v)
  {
    WithoutIndex(t, v);
    assert Without(t, v)[if k < v then k else k - 1] == t[k];
  }

  /** Over runs: a cell given up at step i, connected while a cell that stays is not, was replaced by a new sighting. */
  lemma {:induction false} RunsKeepConnectedCells(calls: seq<Call>, lists: seq<List>, i: nat, x: Beacon, y: Beacon)
    requires IsRun(calls, lists) && i < |calls|
    requires x in lists[i] && x.Cell? && x.h.connected && x !in lists[i + 1]
    requires y in lists[i + 1] && y.Cell? && !y.h.connected
    ensures Equal(calls[i].beacon, x) && Instead(lists[i], Merged(lists[i], calls[i].beacon), x, calls[i].beacon)
  {
    RunsKeepInvariant(calls, lists, i);
    assert StepAt(calls, lists, i);
    var c, s, b := calls[i].policy, lists[i], calls[i].beacon;
    if x in Merged(s, b) {
      ConnectedCellsGoLast(c, s, b, lists[i + 1], x);
    }
    GoneFromMerged(s, b, x);
  }

  /** Merging gives up an entry only for a new sighting of the same beacon. */
  lemma {:induction false} GoneFromMerged(s: List, b: Beacon, x: Beacon)
    requires Invariant(s) && ValidBeacon(b) && x in s && x !in Merged(s, b)
    ensures Equal(b, x) && Instead(s, Merged(s, b), x, b)
  {
    var d := FindDuplicate(s, b);
    if d == |s| {
      InsertedHolds(s, Position(s, b), b, x);
    } else if KeepNew(b, s[d]) {
      if b == s[d] {
        OnlyOnce(s, d, b);
        WithoutHolds(s, d, x);
        InsertedHolds(Without(s, d), Position(Without(s, d), b), b, x);
      } else {
        Replacing(s, d, b);
      }
    }
  }

  // ----- strength-then-address order over runs -----

  /** A step only ever adds the new beacon. */
  lemma {:induction false} StepOnlyAdds(c: Policy, s: List, b: Beacon, s': List)
    requires Sound(c) && AddStep(c, s, b, s')
    ensures forall x | x in s' :: x in s || x == b
  {
    var t := Merged(s, b);
    MergeOnlyAdds(s, b);
    if |t| != |s| && !InLimits(t, c.limits) && NumAps(t) > c.limits.maxApBeacons {
      var v: nat :| v < |t| && s' == Without(t, v);
      WithoutMembers(t, v);
    }
  }

  lemma {:induction false} MergeOnlyAdds(s: List, b: Beacon)
    ensures forall x | x in Merged(s, b) :: x in s || x == b
  {
    var d := FindDuplicate(s, b);
    if d == |s| {
      InsertedMembers(s, Position(s, b), b);
    } else if KeepNew(b, s[d]) {
      WithoutMembers(s, d);
      InsertedMembers(Without(s, d), Position(Without(s, d), b), b);
    }
  }

  lemma {:induction false} InsertKeepsOrder(s: List, b: Beacon)
    requires Invariant(s) && FullyOrdered(s) && ValidBeacon(b) && FindDuplicate(s, b) == |s|
    requires forall i | 0 <= i < |s| :: !MixedTie(b, s[i])
    ensures FullyOrdered(Inserted(s, b))
  {
    if b.Ap? {
      AddressOrderIff(s, b);
    } else {
      InsertPairwise(InApOrder, s, Position(s, b), b);
    }
  }

  lemma {:induction false} MergeKeepsOrder(s: List, b: Beacon)
    requires Invariant(s) && FullyOrdered(s) && ValidBeacon(b)
    requires forall i | 0 <= i < |s| :: !MixedTie(b, s[i])
    ensures FullyOrdered(Merged(s, b))
  {
    var d := FindDuplicate(s, b);
    if d == |s| {
      InsertKeepsOrder(s, b);
    } else if KeepNew(b, s[d]) {
      WithoutKeeps(s, d);
      WithoutPairwise(InApOrder, s, d);
      WithoutIndex(s, d);
      OneDuplicate(s, b);
      InsertKeepsOrder(Without(s, d), b);
    }
  }

  lemma {:induction false} StepKeepsOrder(c: Policy, s: List, b: Beacon, s': List)
    requires Sound(c) && Invariant(s) && FullyOrdered(s) && ValidBeacon(b) && AddStep(c, s, b, s')
    requires forall i | 0 <= i < |s| :: !MixedTie(b, s[i])
    ensures FullyOrdered(s')
  {
    var t := Merged(s, b);
    MergeKeepsOrder(s, b);
    if |t| != |s| && !InLimits(t, c.limits) {
      if NumAps(t) > c.limits.maxApBeacons {
        var v: nat :| v < |t| && s' == Without(t, v);
        WithoutPairwise(InApOrder, t, v);
      } else {
        PairwisePrefix(InApOrder, t, |t| - 1);
      }
    }
  }

  /** No access point of the run ties, "unknown" against -127, with an earlier one of lower address. */
  ghost predicate NoMixedTies(calls: seq<Call>) {
    forall i, j | 0 <= j < i < |calls| :: !MixedTie(calls[i].beacon, calls[j].beacon)
  }

  /** If strengths "unknown" and -127 never meet that way, access points stay in strength-then-address order throughout
      the run. */
  lemma {:induction false} RunsKeepAddressOrder(calls: seq<Call>, lists: seq<List>, n: nat)
    requires IsRun(calls, lists) && NoMixedTies(calls) && n <= |calls|
    ensures FullyOrdered(lists[n])
    ensures forall i | 0 <= i < |lists[n]| :: exists j :: 0 <= j < n && calls[j].beacon == lists[n][i]
  {
    if n > 0 {
      var s, call, s' := lists[n - 1], calls[n - 1], lists[n];
      RunsKeepAddressOrder(calls, lists, n - 1);
      RunsKeepInvariant(calls, lists, n - 1);
      assert StepAt(calls, lists, n - 1);
      forall i | 0 <= i < |s| ensures !MixedTie(call.beacon, s[i]) {
        var j :| 0 <= j < n - 1 && calls[j].beacon == s[i];
      }
      StepKeepsOrder(call.policy, s, call.beacon, s');
      StepOnlyAdds(call.policy, s, call.beacon, s');
      forall i | 0 <= i < |s'| ensures exists j :: 0 <= j < n && calls[j].beacon == s'[i] {
        if s'[i] != call.beacon {
          assert s'[i] in s;
          var k :| 0 <= k < |s| && s[k] == s'[i];
          var j :| 0 <= j < n - 1 && calls[j].beacon == s[k];
          assert calls[j].beacon == s'[i];
        } else {
          assert calls[n - 1].beacon == s'[i];
        }
      }
    }
  }

  // ----- sort, then truncate -----

  /** Insertion sort of everything that was ever added, each new element before its equals. */
  function FullSort(xs: List): (s: List)
    ensures |s| == |xs|
  {
    if xs == [] then [] else Inserted(FullSort(xs[..|xs| - 1]), xs[|xs| - 1])
  }

  function RankIs(r: int): Beacon -> bool {
    (b: Beacon) => Rank(b) == r
  }

  predicate IsCell(b: Beacon) {
    b.Cell?
  }

  /** The cells of a list, in order. */
  function CellsOf(s: List): List {
    Select(IsCell, s)
  }

  ghost predicate AllCells(xs: List) {
    Each(IsCell, xs)
  }

  function Reversed(s: List): List {
    if s == [] then [] else [s[|s| - 1]] + Reversed(s[..|s| - 1])
  }

  /** An insertion among cells puts b in front of the cells of its own rank and leaves those of other ranks alone. */
  lemma {:induction false} InsertedOfRank(s: List, b: Beacon, r: int)
    requires AllValid(s) && AllCells(s) && ValidBeacon(b) && b.Cell?
    ensures Select(RankIs(r), Inserted(s, b)) ==
            (if Rank(b) == r then [b] else []) + Select(RankIs(r), s)
  {
    var p := Position(s, b);
    if Rank(b) == r {
      forall i | 0 <= i < p ensures Rank(s[i]) != r {
        CellNotFirst(b, s[i]);
      }
      SelectInsertedFirst(RankIs(r), s, p, b);
    } else {
      SelectInsertedOther(RankIs(r), s, p, b);
    }
  }

  lemma {:induction false} CellNotFirst(b: Beacon, x: Beacon)
    requires ValidBeacon(b) && ValidBeacon(x) && b.Cell? && IsCell(x) && !GoesFirst(b, x)
    ensures Rank(x) != Rank(b)
  {
    GoesFirstIsRank(b, x);
  }

  lemma {:induction false} FullSortKeeps(xs: List)
    requires AllValid(xs) && AllCells(xs)
    ensures AllValid(FullSort(xs)) && AllCells(FullSort(xs)) && Ranked(FullSort(xs))
    ensures multiset(FullSort(xs)) == multiset(xs)
  {
    if xs != [] {
      var n := |xs| - 1;
      var s := FullSort(xs[..n]);
      SplitLast(xs);
      EachPrefix(ValidBeacon, xs, n);
      EachPrefix(IsCell, xs, n);
      FullSortKeeps(xs[..n]);
      InsertedRanked(s, xs[n]);
      InsertEach(IsCell, s, Position(s, xs[n]), xs[n]);
      InsertedMultiset(s, Position(s, xs[n]), xs[n]);
    }
  }

  lemma {:induction false} ReversedLast(s: List, b: Beacon)
    ensures Reversed(s + [b]) == [b] + Reversed(s)
  {
    assert (s + [b])[..|s|] == s;
  }

  lemma {:induction false} NewestFirstStep(ys: List, s: List, b: Beacon, r: int)
    requires AllValid(s) && AllCells(s) && ValidBeacon(b) && b.Cell?
    requires Select(RankIs(r), s) == Reversed(Select(RankIs(r), ys))
    ensures Select(RankIs(r), Inserted(s, b)) == Reversed(Select(RankIs(r), ys + [b]))
  {
    var chosen := Select(RankIs(r), ys);
    InsertedOfRank(s, b, r);
    SelectLast(RankIs(r), ys, b);
    if Rank(b) == r {
      ReversedLast(chosen, b);
    } else {
      assert chosen + [] == chosen;
    }
  }

  lemma {:induction false} NewestFirst(xs: List, r: int)
    requires AllValid(xs) && AllCells(xs)
    ensures Select(RankIs(r), FullSort(xs)) == Reversed(Select(RankIs(r), xs))
  {
    if xs != [] {
      var n := |xs| - 1;
      var ys := xs[..n];
      SplitLast(xs);
      EachPrefix(ValidBeacon, xs, n);
      EachPrefix(IsCell, xs, n);
      NewestFirst(ys, r);
      FullSortKeeps(ys);
      NewestFirstStep(ys, FullSort(ys), xs[n], r);
    }
  }

  /** The sort keeps every cell, orders by rank, and lists the cells of one rank newest first: this pins it down
      completely. */
  lemma {:induction false} FullSortSorts(xs: List, r: int)
    requires AllValid(xs) && AllCells(xs)
    ensures Ranked(FullSort(xs)) && multiset(FullSort(xs)) == multiset(xs)
    ensures Select(RankIs(r), FullSort(xs)) == Reversed(Select(RankIs(r), xs))
  {
    FullSortKeeps(xs);
    NewestFirst(xs, r);
  }

  lemma {:induction false} CellsOfSuffix(s: List)
    requires Invariant(s)
    ensures CellsOf(s) == s[NumAps(s)..]
  {
    ApsArePrefix(s);
    SelectSuffix(IsCell, s, NumAps(s));
  }

  function Truncated(s: List, k: nat): (t: List)
    ensures |t| == Min(|s|, k)
  {
    s[..Min(|s|, k)]
  }

  lemma {:induction false} PositionUnique(s: List, b: Beacon, p: nat)
    requires p <= |s| && (p < |s| ==> GoesFirst(b, s[p]))
    requires forall i | 0 <= i < p :: !GoesFirst(b, s[i])
    ensures Position(s, b) == p
  {}

  /** Truncating before an insertion and truncating again loses nothing that truncating once keeps. */
  lemma {:induction false} TruncateInserted(s: List, b: Beacon, k: nat)
    ensures Truncated(Inserted(Truncated(s, k), b), k) == Truncated(Inserted(s, b), k)
  {
    if k < |s| {
      var p := Position(s, b);
      PositionUnique(s[..k], b, Min(p, k));
      var a, c := Truncated(Inserted(s[..k], b), k), Truncated(Inserted(s, b), k);
      InsertedIndex(s, p, b);
      InsertedIndex(s[..k], Min(p, k), b);
      assert |a| == |c| == k;
      forall i | 0 <= i < k ensures a[i] == c[i] {}
    } else {
      assert Truncated(s, k) == s;
    }
  }

  /** Inserting a cell is inserting it among the cells. */
  lemma {:induction false} CellInsertedAmongCells(s: List, b: Beacon)
    requires Invariant(s) && ValidBeacon(b) && b.Cell?
    ensures Inserted(s, b)[NumAps(s)..] == Inserted(s[NumAps(s)..], b)
  {
    var n := NumAps(s);
    CellAfterAps(s, b);
    PositionInSuffix(s, b, n);
    InsertedSuffix(s, n, Position(s, b), b);
  }

  lemma {:induction false} PositionInSuffix(s: List, b: Beacon, n: nat)
    requires n <= Position(s, b)
    ensures Position(s[n..], b) == Position(s, b) - n
  {
    PositionUnique(s[n..], b, Position(s, b) - n);
  }

  lemma {:induction false} CellAfterAps(s: List, b: Beacon)
    requires Invariant(s) && ValidBeacon(b) && b.Cell?
    ensures Position(s, b) >= NumAps(s)
  {
    var p := Position(s, b);
    ApsArePrefix(s);
    if p < NumAps(s) {
      GoesFirstIsRank(b, s[p]);
      assert false;
    }
  }

  /** Inserting or replacing an access point leaves the cells alone. */
  lemma {:induction false} ApMergeLeavesCells(s: List, b: Beacon)
    requires b.Ap?
    ensures CellsOf(Merged(s, b)) == CellsOf(s)
  {
    var d := FindDuplicate(s, b);
    if d == |s| {
      SelectInsertedOther(IsCell, s, Position(s, b), b);
    } else if KeepNew(b, s[d]) {
      SelectInsertedOther(IsCell, Without(s, d), Position(Without(s, d), b), b);
      SelectWithoutOther(IsCell, s, d);
    }
  }

  lemma {:induction false} FilteredLeavesCells(c: Policy, t: List, s': List)
    requires Sound(c) && Invariant(t) && Filtered(c, t, s') && NumAps(t) > c.limits.maxApBeacons
    ensures CellsOf(s') == CellsOf(t)
  {
    var v: nat :| v < |t| && IsVictim(ApsOf(t), c.negRssiThreshold, v) && s' == Without(t, v);
    ApsArePrefix(t);
    SelectWithoutOther(IsCell, t, v);
  }

  /** A step that adds an access point leaves the cells alone. */
  lemma {:induction false} ApStepLeavesCells(c: Policy, s: List, b: Beacon, s': List)
    requires Sound(c) && Invariant(s) && InLimits(s, c.limits) && ValidBeacon(b) && b.Ap? && AddStep(c, s, b, s')
    ensures CellsOf(s') == CellsOf(s)
  {
    var t := Merged(s, b);
    MergedKeeps(s, b);
    ApMergeLeavesCells(s, b);
    if |t| != |s| && !InLimits(t, c.limits) {
      FilteredLeavesCells(c, t, s');
    }
  }

  /** A step that adds a new cell inserts it among the cells and truncates. */
  lemma {:induction false} CellStepTruncates(c: Policy, s: List, b: Beacon, s': List)
    requires Sound(c) && Invariant(s) && InLimits(s, c.limits) && ValidBeacon(b) && b.Cell? && AddStep(c, s, b, s')
    requires FindDuplicate(s, b) == |s|
    ensures CellsOf(s') == Truncated(Inserted(CellsOf(s), b), c.limits.totalBeacons - c.limits.maxApBeacons)
  {
    var t, k := Inserted(s, b), c.limits.totalBeacons - c.limits.maxApBeacons;
    MergedKeeps(s, b);
    CellsAfterInsert(s, b);
    if InLimits(t, c.limits) {
      CellsOfSuffix(t);
      assert Truncated(CellsOf(t), k) == CellsOf(t);
    } else {
      LastCellDropped(t, s', k);
    }
  }

  lemma {:induction false} CellsAfterInsert(s: List, b: Beacon)
    requires Invariant(s) && ValidBeacon(b) && b.Cell? && FindDuplicate(s, b) == |s|
    ensures CellsOf(Inserted(s, b)) == Inserted(CellsOf(s), b)
  {
    InsertedKeeps(s, b);
    CountInserted(IsAp, s, Position(s, b), b);
    CellsOfSuffix(s);
    CellsOfSuffix(Inserted(s, b));
    CellInsertedAmongCells(s, b);
  }

  lemma {:induction false} LastCellDropped(t: List, s': List, k: nat)
    requires Invariant(t) && NumCells(t) == k + 1 && s' == t[..|t| - 1]
    ensures CellsOf(s') == Truncated(CellsOf(t), k)
  {
    LastIsCell(t);
    PrefixKeeps(t, |t| - 1);
    CellsOfSuffix(t);
    CellsOfSuffix(s');
  }

  function BeaconsOf(calls: seq<Call>): (bs: List)
    ensures |bs| == |calls|
    ensures forall i | 0 <= i < |calls| :: bs[i] == calls[i].beacon
  {
    seq(|calls|, i requires 0 <= i < |calls| => calls[i].beacon)
  }

  /** No two cells added in the run are equal. */
  ghost predicate DistinctCells(bs: List) {
    Pairwise(CellsUnequal, bs)
  }

  predicate CellsUnequal(a: Beacon, b: Beacon) {
    a.Cell? && b.Cell? ==> !Equal(a, b)
  }

  /** A cell kept in the list is one of the cells added. */
  lemma {:induction false} KeptWasAdded(s: List, added: List, k: nat, i: nat)
    requires CellsOf(s) == Truncated(FullSort(CellsOf(added)), k)
    requires AllValid(added) && Invariant(s) && i < |s| && s[i].Cell?
    ensures s[i] in added
  {
    var full := FullSort(CellsOf(added));
    ApsArePrefix(s);
    CellsOfSuffix(s);
    SelectedHave(IsCell, added, ValidBeacon);
    FullSortKeeps(CellsOf(added));
    assert s[i] == CellsOf(s)[i - NumAps(s)] == full[i - NumAps(s)];
    assert s[i] in multiset(full);
    assert s[i] in multiset(CellsOf(added));
  }

  lemma {:induction false} NoDuplicate(s: List, b: Beacon)
    requires forall i | 0 <= i < |s| :: !Equal(b, s[i])
    ensures FindDuplicate(s, b) == |s|
  {}

  lemma {:induction false} TopKStep(c: Policy, s: List, b: Beacon, s': List, before: List, k: nat)
    requires Sound(c) && k == c.limits.totalBeacons - c.limits.maxApBeacons
    requires Invariant(s) && InLimits(s, c.limits) && ValidBeacon(b) && AddStep(c, s, b, s')
    requires b.Cell? ==> FindDuplicate(s, b) == |s|
    requires CellsOf(s) == Truncated(FullSort(CellsOf(before)), k)
    ensures CellsOf(s') == Truncated(FullSort(CellsOf(before + [b])), k)
  {
    if b.Ap? {
      ApStepLeavesCells(c, s, b, s');
      AddedAp(before, b, before + [b]);
    } else {
      CellStepTruncates(c, s, b, s');
      TopKCell(CellsOf(s), CellsOf(s'), b, before, k);
    }
  }

  lemma {:induction false} TopKCell(cs: List, cs': List, b: Beacon, before: List, k: nat)
    requires b.Cell? && cs == Truncated(FullSort(CellsOf(before)), k) && cs' == Truncated(Inserted(cs, b), k)
    ensures cs' == Truncated(FullSort(CellsOf(before + [b])), k)
  {
    AddedCell(before, b, before + [b]);
    TruncateInserted(FullSort(CellsOf(before)), b, k);
  }

  /** Bounded filtering refines sort-then-truncate: in a run that adds cells no two of which are equal, and any access
      points among them, the cells in the request are always the first total - max_ap of the full sort of all cells
      added so far. */
  lemma {:induction false} StreamingTopK(calls: seq<Call>, lists: seq<List>, c: Policy, n: nat)
    requires IsRun(calls, lists) && OnePolicy(calls, c) && Sound(c) && n <= |calls|
    requires DistinctCells(BeaconsOf(calls))
    ensures CellsOf(lists[n]) ==
            Truncated(FullSort(CellsOf(BeaconsOf(calls[..n]))), c.limits.totalBeacons - c.limits.maxApBeacons)
  {
    if n > 0 {
      StreamingTopK(calls, lists, c, n - 1);
      TopKAt(calls, lists, c, n - 1);
    } else {
      assert BeaconsOf(calls[..0]) == [];
    }
  }

  lemma {:induction false} TopKAt(calls: seq<Call>, lists: seq<List>, c: Policy, n: nat)
    requires IsRun(calls, lists) && OnePolicy(calls, c) && Sound(c) && n < |calls|
    requires DistinctCells(BeaconsOf(calls))
    requires CellsOf(lists[n]) ==
             Truncated(FullSort(CellsOf(BeaconsOf(calls[..n]))), c.limits.totalBeacons - c.limits.maxApBeacons)
    ensures CellsOf(lists[n + 1]) ==
            Truncated(FullSort(CellsOf(BeaconsOf(calls[..n + 1]))), c.limits.totalBeacons - c.limits.maxApBeacons)
  {
    RunsKeepLimits(calls, lists, c, n);
    StepUnder(calls, lists, c, n);
    AllAcceptable(calls, lists);
    TopKNext(calls, lists[n], lists[n + 1], c, n);
  }

  lemma {:induction false} AllAcceptable(calls: seq<Call>, lists: seq<List>)
    requires IsRun(calls, lists)
    ensures forall i | 0 <= i < |calls| :: Acceptable(calls[i])
  {
    forall i: nat | i < |calls| ensures Acceptable(calls[i]) {
      assert StepAt(calls, lists, i);
    }
  }

  lemma {:induction false} TopKNext(calls: seq<Call>, s: List, s': List, c: Policy, n: nat)
    requires Sound(c) && n < |calls| && calls[n].policy == c && AddStep(c, s, calls[n].beacon, s')
    requires (forall i | 0 <= i < |calls| :: Acceptable(calls[i])) && DistinctCells(BeaconsOf(calls))
    requires Invariant(s) && InLimits(s, c.limits)
    requires CellsOf(s) ==
             Truncated(FullSort(CellsOf(BeaconsOf(calls[..n]))), c.limits.totalBeacons - c.limits.maxApBeacons)
    ensures CellsOf(s') ==
            Truncated(FullSort(CellsOf(BeaconsOf(calls[..n + 1]))), c.limits.totalBeacons - c.limits.maxApBeacons)
  {
    var k := c.limits.totalBeacons - c.limits.maxApBeacons;
    if calls[n].beacon.Cell? {
      NewCell(calls, s, k, n);
    }
    assert Acceptable(calls[n]);
    TopKStep(c, s, calls[n].beacon, s', BeaconsOf(calls[..n]), k);
    BeaconsOfPrefix(calls, n);
  }

  lemma {:induction false} BeaconsOfPrefix(calls: seq<Call>, n: nat)
    requires n < |calls|
    ensures BeaconsOf(calls[..n + 1]) == BeaconsOf(calls[..n]) + [calls[n].beacon]
  {
    assert calls[..n + 1] == calls[..n] + [calls[n]];
  }

  lemma {:induction false} AddedCell(before: List, b: Beacon, after: List)
    requires after == before + [b] && b.Cell?
    ensures FullSort(CellsOf(after)) == Inserted(FullSort(CellsOf(before)), b)
  {
    SelectLast(IsCell, before, b);
    var cs := CellsOf(before);
    assert (cs + [b])[..|cs|] == cs;
  }

  lemma {:induction false} AddedAp(before: List, b: Beacon, after: List)
    requires after == before + [b] && !b.Cell?
    ensures CellsOf(after) == CellsOf(before)
  {
    SelectLast(IsCell, before, b);
  }

  /** The n-th beacon, a cell, has no duplicate in the list the earlier ones left. */
  lemma {:induction false} NewCell(calls: seq<Call>, s: List, k: nat, n: nat)
    requires n < |calls| && calls[n].beacon.Cell? && Invariant(s)
    requires forall i | 0 <= i < |calls| :: Acceptable(calls[i])
    requires DistinctCells(BeaconsOf(calls))
    requires CellsOf(s) == Truncated(FullSort(CellsOf(BeaconsOf(calls[..n]))), k)
    ensures FindDuplicate(s, calls[n].beacon) == |s|
  {
    var b, bs, before := calls[n].beacon, BeaconsOf(calls), BeaconsOf(calls[..n]);
    assert forall i | 0 <= i < n :: before[i] == bs[i];
    forall i | 0 <= i < |s| ensures !Equal(b, s[i]) {
      if s[i].Cell? {
        KeptWasAdded(s, before, k, i);
        var j :| 0 <= j < n && before[j] == s[i];
        assert CellsUnequal(bs[j], bs[n]);
        EqualIsPartialEquivalence(b, s[i], b);
      }
    }
    NoDuplicate(s, b);
  }
}
