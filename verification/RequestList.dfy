/** The list of beacons of a request as a value: duplicates, insertion and removal (libel/beacons.c), the
    invariant they keep and the order among access points. */
module RequestList {
  import opened Macs
  import opened Beacons
  import opened Prelude
  import opened SeqFacts

  type List = seq<Beacon>

  /** The limits a request must respect. */
  datatype Limits = Limits(totalBeacons: nat, maxApBeacons: nat)

  /** The limits a server or a caller may set. */
  predicate WellFormed(c: Limits) {
    1 <= c.maxApBeacons <= c.totalBeacons <= TOTAL_BEACONS && c.maxApBeacons <= MAX_AP_BEACONS
  }

  predicate IsAp(b: Beacon) {
    b.Ap?
  }

  function NumAps(s: List): (n: nat)
    ensures n <= |s|
  {
    Count(IsAp, s)
  }

  function NumCells(s: List): nat {
    |s| - NumAps(s)
  }

  ghost predicate AllValid(s: List) {
    Each(ValidBeacon, s)
  }

  predicate NotBelow(a: Beacon, b: Beacon) {
    Rank(a) >= Rank(b)
  }

  predicate Unequal(a: Beacon, b: Beacon) {
    !Equal(a, b)
  }

  ghost predicate Ranked(s: List) {
    Pairwise(NotBelow, s)
  }

  ghost predicate Distinct(s: List) {
    Pairwise(Unequal, s)
  }

  /** What every list of a request is: valid beacons in rank order, no two of them equal. */
  ghost predicate Invariant(s: List) {
    AllValid(s) && Ranked(s) && Distinct(s)
  }

  /** Room in the context's array, with one slot kept free for the transient overflow. */
  predicate HasRoom(s: List) {
    |s| <= TOTAL_BEACONS && NumAps(s) <= MAX_AP_BEACONS
  }

  predicate Fits(s: List, c: Limits) {
    |s| <= c.totalBeacons && NumAps(s) <= c.maxApBeacons
  }

  predicate CellsFit(s: List, c: Limits)
    requires WellFormed(c)
  {
    NumCells(s) <= c.totalBeacons - c.maxApBeacons
  }

  // ----- access points first -----

  /** Access points are exactly the first NumAps entries, cells the rest. */
  lemma {:induction false} ApsArePrefix(s: List)
    requires Invariant(s)
    ensures forall i | 0 <= i < |s| :: (s[i].Ap? <==> i < NumAps(s)) && (s[i].Cell? <==> i >= NumAps(s))
  {
    if s != [] {
      var n := |s| - 1;
      var t := s[..n];
      assert forall i | 0 <= i < n :: t[i] == s[i];
      ApsArePrefix(t);
      if s[n].Ap? && NumAps(t) < n {
        assert t[n - 1].Cell?;
        GoesFirstIsRank(s[n - 1], s[n]);
        assert false;
      }
    }
  }

  /** What rank order means inside the two classes. */
  lemma {:induction false} RankMeaning(s: List)
    requires Invariant(s)
    ensures forall i, j | 0 <= i < j < NumAps(s) :: EffectiveRssi(s[i].h.rssi) >= EffectiveRssi(s[j].h.rssi)
    ensures forall i, j | NumAps(s) <= i < j < |s| :: Compare(s[i], s[j]).Some? && Compare(s[i], s[j]).value >= 0
  {
    ApsArePrefix(s);
    forall i, j | NumAps(s) <= i < j < |s| ensures Compare(s[i], s[j]).Some? && Compare(s[i], s[j]).value >= 0 {
      GoesFirstIsRank(s[i], s[j]);
    }
  }

  /** The technologies, best first. */
  const TECHNOLOGIES: seq<CellKind> := [NR, LTE, UMTS, NBIOT, CDMA, GSM]

  /** b's technology is not better than a's. */
  predicate TechnologyInOrder(a: CellKind, b: CellKind) {
    exists i, j :: 0 <= i <= j < |TECHNOLOGIES| && TECHNOLOGIES[i] == a && TECHNOLOGIES[j] == b
  }

  lemma {:induction false} TechnologyByCode(a: CellKind, b: CellKind)
    requires KindCode(a) <= KindCode(b)
    ensures TechnologyInOrder(a, b)
  {
    var i, j := KindCode(a) - 3, KindCode(b) - 3;
    assert TECHNOLOGIES[i] == a && TECHNOLOGIES[j] == b;
  }

  /** Of two cells in a list the first is the connected one; of cells alike in that the identified one; then the younger,
      then the one of the better technology, then the stronger. */
  lemma {:induction false} CellsInPlainTerms(s: List, i: nat, j: nat)
    requires Invariant(s) && i < j < |s| && s[i].Cell? && s[j].Cell?
    ensures var a, b := s[i], s[j];
            && (b.h.connected ==> a.h.connected)
            && (a.h.connected == b.h.connected ==>
                  && (b.cell.id2 != UNKNOWN_ID2 ==> a.cell.id2 != UNKNOWN_ID2)
                  && ((a.cell.id2 == UNKNOWN_ID2) == (b.cell.id2 == UNKNOWN_ID2) ==>
                        && a.h.age <= b.h.age
                        && (a.h.age == b.h.age ==>
                              && TechnologyInOrder(a.cell.kind, b.cell.kind)
                              && (a.cell.kind == b.cell.kind ==>
                                    EffectiveRssi(a.h.rssi) >= EffectiveRssi(b.h.rssi)))))
  {
    var a, b := s[i], s[j];
    assert NotBelow(a, b);
    DigitsOrder(CellPriority(a), a.h.age, KindCode(a.cell.kind), EffectiveRssi(a.h.rssi),
                CellPriority(b), b.h.age, KindCode(b.cell.kind), EffectiveRssi(b.h.rssi));
    if KindCode(a.cell.kind) <= KindCode(b.cell.kind) {
      TechnologyByCode(a.cell.kind, b.cell.kind);
    }
  }

  // ----- the three list operations -----

  /** The first entry equal to b, |s| if there is none. */
  function FindDuplicate(s: List, b: Beacon): (d: nat)
    ensures d <= |s|
    ensures d < |s| ==> Equal(b, s[d])
    ensures forall i | 0 <= i < d :: !Equal(b, s[i])
    decreases |s|
  {
    if s == [] then 0 else
      var d := FindDuplicate(s[..|s| - 1], b);
      if d == |s| - 1 && !Equal(b, s[|s| - 1]) then |s| else d
  }

  /** The new of two equal beacons is kept if it is younger, or as old and connected, or stronger with the same flags. */
  predicate KeepNew(b: Beacon, stored: Beacon) {
    || b.h.age < stored.h.age
    || (b.h.age == stored.h.age && b.h.connected)
    || (b.h.age == stored.h.age && b.h.connected == stored.h.connected && b.h.rssi > stored.h.rssi)
  }

  /** The first entry b goes before, |s| if there is none. */
  function Position(s: List, b: Beacon): (p: nat)
    ensures p <= |s|
    ensures p < |s| ==> GoesFirst(b, s[p])
    ensures forall i | 0 <= i < p :: !GoesFirst(b, s[i])
    decreases |s|
  {
    if s == [] then 0 else
      var p := Position(s[..|s| - 1], b);
      if p == |s| - 1 && !GoesFirst(b, s[|s| - 1]) then |s| else p
  }

  function Inserted(s: List, b: Beacon): (t: List)
    ensures |t| == |s| + 1
  {
    InsertedAt(s, Position(s, b), b)
  }

  /** insert_beacon on a beacon of a supported type. */
  function Merged(s: List, b: Beacon): List {
    var d := FindDuplicate(s, b);
    if d == |s| then Inserted(s, b)
    else if KeepNew(b, s[d]) then Inserted(Without(s, d), b)
    else s
  }

  // ----- what they do to the invariant -----

  lemma {:induction false} WithoutKeeps(s: List, i: nat)
    requires Invariant(s) && i < |s|
    ensures Invariant(Without(s, i))
    ensures NumAps(Without(s, i)) == NumAps(s) - if s[i].Ap? then 1 else 0
  {
    WithoutEach(ValidBeacon, s, i);
    WithoutPairwise(NotBelow, s, i);
    WithoutPairwise(Unequal, s, i);
    CountWithout(IsAp, s, i);
  }

  /** b stands between the entries that rank at least as high and those that rank no higher. */
  lemma {:induction false} PositionSplits(s: List, b: Beacon)
    requires AllValid(s) && Ranked(s) && ValidBeacon(b)
    ensures forall k | 0 <= k < |s| :: if k < Position(s, b) then NotBelow(s[k], b) else NotBelow(b, s[k])
  {
    var p := Position(s, b);
    forall k | 0 <= k < |s| ensures if k < p then NotBelow(s[k], b) else NotBelow(b, s[k]) {
      if k < p {
        GoesFirstIsRank(b, s[k]);
      } else {
        GoesFirstIsRank(b, s[p]);
        assert k == p || NotBelow(s[p], s[k]);
      }
    }
  }

  lemma {:induction false} InsertedRanked(s: List, b: Beacon)
    requires AllValid(s) && Ranked(s) && ValidBeacon(b)
    ensures AllValid(Inserted(s, b)) && Ranked(Inserted(s, b))
  {
    PositionSplits(s, b);
    InsertEach(ValidBeacon, s, Position(s, b), b);
    InsertPairwise(NotBelow, s, Position(s, b), b);
  }

  lemma {:induction false} InsertedKeeps(s: List, b: Beacon)
    requires Invariant(s) && ValidBeacon(b) && FindDuplicate(s, b) == |s|
    ensures Invariant(Inserted(s, b))
  {
    InsertedRanked(s, b);
    forall k | 0 <= k < |s| ensures Unequal(s[k], b) && Unequal(b, s[k]) {
      EqualIsPartialEquivalence(s[k], b, b);
    }
    InsertPairwise(Unequal, s, Position(s, b), b);
  }

  /** In a list without equal entries at most one is equal to b, so removing it leaves none. */
  lemma {:induction false} OneDuplicate(s: List, b: Beacon)
    requires Distinct(s) && FindDuplicate(s, b) < |s|
    ensures FindDuplicate(Without(s, FindDuplicate(s, b)), b) == |s| - 1
  {
    var d := FindDuplicate(s, b);
    WithoutIndex(s, d);
    forall k | d < k < |s| ensures !Equal(b, s[k]) {
      assert Unequal(s[d], s[k]);
      EqualIsPartialEquivalence(b, s[d], b);
      EqualIsPartialEquivalence(s[d], b, s[k]);
    }
  }

  /** Merging a valid beacon keeps the invariant; a kept newer duplicate replaces the only equal entry. */
  lemma {:induction false} MergedKeeps(s: List, b: Beacon)
    requires Invariant(s) && ValidBeacon(b)
    ensures Invariant(Merged(s, b))
    ensures NumAps(Merged(s, b)) == NumAps(s) + if FindDuplicate(s, b) == |s| && b.Ap? then 1 else 0
    ensures |Merged(s, b)| == |s| + if FindDuplicate(s, b) == |s| then 1 else 0
  {
    var d := FindDuplicate(s, b);
    if d == |s| {
      InsertedKeeps(s, b);
      CountInserted(IsAp, s, Position(s, b), b);
    } else if KeepNew(b, s[d]) {
      WithoutKeeps(s, d);
      OneDuplicate(s, b);
      InsertedKeeps(Without(s, d), b);
      CountInserted(IsAp, Without(s, d), Position(Without(s, d), b), b);
    }
  }

  /** The entry equal to b is the duplicate. */
  lemma {:induction false} SameEntry(s: List, b: Beacon, d: nat, k: nat)
    requires Distinct(s) && d == FindDuplicate(s, b) && k < |s| && Equal(b, s[k])
    ensures d == k
  {
    if d < k {
      assert Unequal(s[d], s[k]);
      EqualIsPartialEquivalence(b, s[d], b);
      EqualIsPartialEquivalence(s[d], b, s[k]);
    }
  }

  // ----- which of two sightings stays -----

  /** t holds kept in the place of gone, and otherwise the entries of s. */
  ghost predicate Instead(s: List, t: List, gone: Beacon, kept: Beacon) {
    && gone !in t && kept in t && (forall x | x in t && x != kept :: x in s) && (forall x | x in s && x != gone :: x in t)
  }

  /** Two sightings of one beacon: the younger stays. At equal ages the new one stays if it is connected, and with equal
      flags if its reading is greater; otherwise the list is as it was. */
  lemma {:induction false} BetterSightingStays(s: List, b: Beacon)
    requires Invariant(s) && ValidBeacon(b) && FindDuplicate(s, b) < |s|
    ensures var was := s[FindDuplicate(s, b)];
            && (b.h.age < was.h.age ==> Instead(s, Merged(s, b), was, b))
            && (b.h.age > was.h.age ==> Merged(s, b) == s)
            && (b.h.age == was.h.age && b.h.connected && b != was ==> Instead(s, Merged(s, b), was, b))
            && (b.h.age == was.h.age && !b.h.connected && was.h.connected ==> Merged(s, b) == s)
            && (b.h.age == was.h.age && !b.h.connected && !was.h.connected && b.h.rssi > was.h.rssi ==>
                  Instead(s, Merged(s, b), was, b))
            && (b.h.age == was.h.age && !b.h.connected && !was.h.connected && b.h.rssi <= was.h.rssi ==> Merged(s, b) == s)
  {
    var d := FindDuplicate(s, b);
    if Merged(s, b) == Inserted(Without(s, d), b) && b != s[d] {
      Replacing(s, d, b);
    }
  }

  lemma {:induction false} Replacing(s: List, d: nat, b: Beacon)
    requires Invariant(s) && d < |s| && Equal(b, s[d]) && b != s[d]
    ensures Instead(s, Inserted(Without(s, d), b), s[d], b)
  {
    var u := Without(s, d);
    OnlyOnce(s, d, b);
    forall x ensures x in Inserted(u, b) <==> (x in s && x != s[d]) || x == b {
      WithoutHolds(s, d, x);
      InsertedHolds(u, Position(u, b), b, x);
    }
  }

  lemma {:induction false} OnlyOnce(s: List, d: nat, b: Beacon)
    requires Distinct(s) && d < |s| && Equal(b, s[d])
    ensures forall k | 0 <= k < |s| && k != d :: s[k] != s[d]
  {
    EqualIsPartialEquivalence(b, s[d], b);
    EqualIsPartialEquivalence(s[d], b, s[d]);
    forall k | 0 <= k < |s| && k != d ensures s[k] != s[d] {
      assert if k < d then Unequal(s[k], s[d]) else Unequal(s[d], s[k]);
    }
  }

  /** The comment promises the stronger of two sightings equal in age and flags, but readings are compared as they are,
      and "unknown" (-1) is the greatest. The sighting kept is at least as strong exactly unless one reading is unknown
      and the other is above -127. */
  lemma {:induction false} StrongerStaysIff(s: List, b: Beacon)
    requires Invariant(s) && ValidBeacon(b) && FindDuplicate(s, b) < |s|
    requires var was := s[FindDuplicate(s, b)];
             b.h.age == was.h.age && !b.h.connected && !was.h.connected && b.h.rssi != was.h.rssi
    ensures var was := s[FindDuplicate(s, b)];
            var kept := if b in Merged(s, b) then b else was;
            var gone := if kept == b then was else b;
            && kept in Merged(s, b) && gone !in Merged(s, b)
            && (EffectiveRssi(kept.h.rssi) >= EffectiveRssi(gone.h.rssi) <==>
                !((b.h.rssi == -1 && was.h.rssi > -127) || (was.h.rssi == -1 && b.h.rssi > -127)))
  {
    var d := FindDuplicate(s, b);
    var was := s[d];
    BetterSightingStays(s, b);
    NotThere(s, b, d);
    ReadingsInRange(b);
    ReadingsInRange(was);
  }

  /** A sighting without a reading replaces one at -50. */
  lemma {:induction false} UnknownReplacesStrong()
    ensures exists s: List, b: Beacon ::
              && Invariant(s) && ValidBeacon(b) && |s| == 1 && s[0].h.rssi == -50 && b.h.rssi == -1
              && b.h.age == s[0].h.age && !b.h.connected && !s[0].h.connected && Equal(b, s[0]) && Merged(s, b) == [b]
  {
    var x := Ap(Header(0, -50, false), ApData([4, 0, 0, 0, 0, 1], 0, false));
    var b := Ap(Header(0, -1, false), ApData([4, 0, 0, 0, 0, 1], 0, false));
    var s: List := [x];
    assert x.ap.mac[0] == 4 && b.ap.mac[0] == 4;
    assert Validate(x) == Some(x) && Validate(b) == Some(b);
    assert Equal(b, s[0]) && FindDuplicate(s, b) == 0;
    assert Without(s, 0) == [];
    assert Invariant(s) && Merged(s, b) == [b];
  }

  lemma {:induction false} ReadingsInRange(b: Beacon)
    requires ValidBeacon(b)
    ensures b.h.rssi == -1 || (-156 <= b.h.rssi <= -10)
  {}

  lemma {:induction false} NotThere(s: List, b: Beacon, d: nat)
    requires Invariant(s) && d < |s| && Equal(b, s[d]) && b != s[d]
    ensures b !in s
  {
    EqualIsPartialEquivalence(b, s[d], b);
    forall k | 0 <= k < |s| ensures s[k] != b {
      if k != d {
        assert if k < d then Unequal(s[k], s[d]) else Unequal(s[d], s[k]);
      }
    }
  }

  // ----- the order among access points of equal strength -----

  /** Stronger first, and the lower address first among equals. */
  predicate ApBefore(a: Beacon, b: Beacon)
    requires a.Ap? && b.Ap?
  {
    || EffectiveRssi(a.h.rssi) > EffectiveRssi(b.h.rssi)
    || (EffectiveRssi(a.h.rssi) == EffectiveRssi(b.h.rssi) && MacLess(a.ap.mac, b.ap.mac))
  }

  /** On two access points, the strength-then-address order; vacuous on others. */
  predicate InApOrder(a: Beacon, b: Beacon) {
    a.Ap? && b.Ap? ==> ApBefore(a, b)
  }

  ghost predicate FullyOrdered(s: List) {
    Pairwise(InApOrder, s)
  }

  /** The stored access point ties with b in effective strength while their readings differ (one is "unknown",
      the other -127), and has the lower address. */
  predicate MixedTie(b: Beacon, stored: Beacon) {
    && b.Ap? && stored.Ap?
    && b.h.rssi != stored.h.rssi && EffectiveRssi(b.h.rssi) == EffectiveRssi(stored.h.rssi)
    && MacLess(stored.ap.mac, b.ap.mac)
  }

  lemma {:induction false} MixedTieBreaksOrder(s: List, b: Beacon, i: nat)
    requires b.Ap? && i < |s| && MixedTie(b, s[i])
    ensures !FullyOrdered(Inserted(s, b))
  {
    var p, t := Position(s, b), Inserted(s, b);
    InsertedIndex(s, p, b);
    assert GoesFirst(b, s[i]);
    assert p <= i && t[p] == b && t[i + 1] == s[i] && !InApOrder(t[p], t[i + 1]);
  }

  /** The pairwise decision between access points with different addresses that are not a mixed tie. */
  lemma {:induction false} DecisionIsOrder(b: Beacon, x: Beacon)
    requires b.Ap? && x.Ap? && !Equal(b, x) && !MixedTie(b, x)
    ensures !GoesFirst(b, x) ==> ApBefore(x, b)
    ensures GoesFirst(b, x) ==> ApBefore(b, x)
  {
    if MacNumber(x.ap.mac) == MacNumber(b.ap.mac) {
      MacNumberInjective(x.ap.mac, b.ap.mac);
    }
  }

  lemma {:induction false} UnmixedBefore(s: List, b: Beacon, k: nat)
    requires Invariant(s) && FullyOrdered(s) && b.Ap? && FindDuplicate(s, b) == |s| && k < |s| && s[k].Ap?
    requires forall i | 0 <= i < |s| :: !MixedTie(b, s[i])
    requires Position(s, b) < |s| ==> s[Position(s, b)].Ap? || Position(s, b) > k
    ensures if k < Position(s, b) then ApBefore(s[k], b) else ApBefore(b, s[k])
  {
    var p := Position(s, b);
    DecisionIsOrder(b, s[k]);
    if p < k {
      DecisionIsOrder(b, s[p]);
      assert InApOrder(s[p], s[k]);
    }
  }

  lemma {:induction false} UnmixedKeepsOrder(s: List, b: Beacon)
    requires Invariant(s) && FullyOrdered(s) && ValidBeacon(b) && b.Ap? && FindDuplicate(s, b) == |s|
    requires forall i | 0 <= i < |s| :: !MixedTie(b, s[i])
    ensures FullyOrdered(Inserted(s, b))
  {
    var p := Position(s, b);
    ApsArePrefix(s);
    forall k | 0 <= k < |s| ensures if k < p then InApOrder(s[k], b) else InApOrder(b, s[k]) {
      if s[k].Ap? {
        UnmixedBefore(s, b, k);
      }
    }
    InsertPairwise(InApOrder, s, p, b);
  }

  /** Insertion keeps the strength-then-address order exactly when no stored access point is a mixed tie. */
  lemma {:induction false} AddressOrderIff(s: List, b: Beacon)
    requires Invariant(s) && FullyOrdered(s) && ValidBeacon(b) && b.Ap? && FindDuplicate(s, b) == |s|
    ensures FullyOrdered(Inserted(s, b)) <==> forall i | 0 <= i < |s| :: !MixedTie(b, s[i])
  {
    if i :| 0 <= i < |s| && MixedTie(b, s[i]) {
      MixedTieBreaksOrder(s, b, i);
    } else {
      UnmixedKeepsOrder(s, b);
    }
  }

  /** A list in which the order fails: readings -127 and then -1 under rising addresses. */
  lemma {:induction false} AddressOrderFails()
    ensures exists s: List, b: Beacon ::
              && Invariant(s) && FullyOrdered(s) && ValidBeacon(b) && b.Ap? && FindDuplicate(s, b) == |s|
              && !FullyOrdered(Inserted(s, b))
  {
    var x := Ap(Header(0, -127, false), ApData([4, 0, 0, 0, 0, 1], 0, false));
    var b := Ap(Header(0, -1, false), ApData([4, 0, 0, 0, 0, 2], 0, false));
    var s: List := [x];
    assert x.ap.mac[0] == 4 && x.ap.mac[5] == 1 && b.ap.mac[0] == 4 && b.ap.mac[5] == 2;
    assert Validate(x) == Some(x) && Validate(b) == Some(b);
    assert MixedTie(b, s[0]) && !Equal(b, s[0]);
    MixedTieBreaksOrder(s, b, 0);
    assert Invariant(s) && FullyOrdered(s) && FindDuplicate(s, b) == 1;
  }
}
