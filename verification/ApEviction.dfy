/** Which access point gives way when a request holds too many: remove_virtual_ap, remove_oldest_ap,
    get_priority, set_priorities and remove_worst of plugins/ap_plugin_basic.c. */
module ApEviction {
  import opened Macs
  import opened Beacons
  import opened Prelude

  type ApBeacon = b: Beacon | b.Ap? witness Ap(Header(0, -1, false), ApData([4, 0, 0, 0, 0, 0], 0, false))

  /** The access points of a request, strongest first, no address twice. */
  type Aps = seq<ApBeacon>

  ghost predicate DistinctMacs(aps: Aps) {
    forall i, j | 0 <= i < j < |aps| :: aps[i].ap.mac != aps[j].ap.mac
  }

  ghost predicate StrongestFirst(aps: Aps) {
    forall i, j | 0 <= i < j < |aps| :: EffectiveRssi(aps[i].h.rssi) >= EffectiveRssi(aps[j].h.rssi)
  }

  // ----- one of two access points of a virtual group -----

  /** compare_connected_used: connected is worth more than used. */
  function CompareConnectedUsed(a: ApBeacon, b: ApBeacon): int {
    if a.h.connected && !b.h.connected then 1
    else if b.h.connected && !a.h.connected then -1
    else if a.ap.used && !b.ap.used then 1
    else if b.ap.used && !a.ap.used then -1
    else 0
  }

  /** Of two similar access points a is kept: better flags, or the same flags and the lower address. */
  predicate Kept(a: ApBeacon, b: ApBeacon) {
    CompareConnectedUsed(a, b) > 0 || (CompareConnectedUsed(a, b) == 0 && MacLess(a.ap.mac, b.ap.mac))
  }

  predicate VirtualPair(a: ApBeacon, b: ApBeacon) {
    !a.h.connected && !b.h.connected && Similar(a.ap.mac, b.ap.mac)
  }

  /** Entry l loses to some similar unconnected entry. */
  ghost predicate Loser(aps: Aps, l: nat) {
    l < |aps| && exists k :: 0 <= k < |aps| && k != l && VirtualPair(aps[k], aps[l]) && Kept(aps[k], aps[l])
  }

  /** Among losers a is removed rather than b: the better flags, or the same flags and the higher address. */
  predicate Outranks(a: ApBeacon, b: ApBeacon) {
    CompareConnectedUsed(a, b) > 0 || (CompareConnectedUsed(a, b) == 0 && MacLess(b.ap.mac, a.ap.mac))
  }

  /** The loser that outranks all other losers. */
  ghost predicate IsVirtualVictim(aps: Aps, v: nat) {
    Loser(aps, v) && forall l: nat | Loser(aps, l) && l != v :: Outranks(aps[v], aps[l])
  }

  lemma {:induction false} OutranksTransitive(a: ApBeacon, b: ApBeacon, c: ApBeacon)
    ensures Outranks(a, b) && Outranks(b, c) ==> Outranks(a, c)
  {}

  /** The loser of the pair of positions i and j. */
  function PairLoser(aps: Aps, i: nat, j: nat): nat
    requires i < j < |aps|
  {
    if Kept(aps[i], aps[j]) then j else i
  }

  lemma {:induction false} PairLoserLoses(aps: Aps, i: nat, j: nat)
    requires DistinctMacs(aps) && i < j < |aps| && VirtualPair(aps[i], aps[j])
    ensures Loser(aps, PairLoser(aps, i, j))
  {
    SimilarSymmetric(aps[i].ap.mac, aps[j].ap.mac);
    if !Kept(aps[i], aps[j]) && MacNumber(aps[i].ap.mac) == MacNumber(aps[j].ap.mac) {
      MacNumberInjective(aps[i].ap.mac, aps[j].ap.mac);
    }
  }

  lemma {:induction false} LoserIsPairLoser(aps: Aps, l: nat) returns (i: nat, j: nat)
    requires Loser(aps, l)
    ensures i < j < |aps| && VirtualPair(aps[i], aps[j]) && PairLoser(aps, i, j) == l
  {
    var k :| 0 <= k < |aps| && k != l && VirtualPair(aps[k], aps[l]) && Kept(aps[k], aps[l]);
    SimilarSymmetric(aps[k].ap.mac, aps[l].ap.mac);
    i, j := if k < l then k else l, if k < l then l else k;
  }

  /** The worst candidate so far covers the pair of positions i and j. */
  ghost predicate Covers(aps: Aps, worst: Option<nat>, i: nat, j: nat)
    requires i < j < |aps| && (worst.Some? ==> worst.value < |aps|)
  {
    VirtualPair(aps[i], aps[j]) ==>
      worst.Some? && (worst.value == PairLoser(aps, i, j) || Outranks(aps[worst.value], aps[PairLoser(aps, i, j)]))
  }

  /** The pair loops of remove_virtual_ap: the position to remove, or none. */
  method FindVirtualVictim(aps: Aps) returns (worst: Option<nat>)
    requires DistinctMacs(aps)
    ensures worst.Some? ==> IsVirtualVictim(aps, worst.value)
    ensures worst.None? ==> forall l: nat :: !Loser(aps, l)
  {
    worst := None;
    var j := |aps| - 1;
    while j > 0
      invariant -1 <= j < |aps|
      invariant worst.Some? ==> Loser(aps, worst.value)
      invariant forall x, y | 0 <= x < y < |aps| && j < y :: Covers(aps, worst, x, y)
    {
      if !aps[j].h.connected {
        var i := j - 1;
        while i >= 0
          invariant -1 <= i < j
          invariant worst.Some? ==> Loser(aps, worst.value)
          invariant forall x, y | 0 <= x < y < |aps| && j < y :: Covers(aps, worst, x, y)
          invariant forall x | i < x < j :: Covers(aps, worst, x, j)
        {
          if !aps[i].h.connected {
            worst := ConsiderPair(aps, worst, i, j);
          }
          i := i - 1;
        }
      }
      j := j - 1;
    }
    if worst.Some? {
      forall l: nat | Loser(aps, l) && l != worst.value ensures Outranks(aps[worst.value], aps[l]) {
        var x, y := LoserIsPairLoser(aps, l);
        assert Covers(aps, worst, x, y);
      }
    } else {
      forall x, y | 0 <= x < y < |aps| ensures !VirtualPair(aps[x], aps[y]) {
        assert Covers(aps, worst, x, y);
      }
      forall l: nat ensures !Loser(aps, l) {
        NoPairNoLoser(aps, l);
      }
    }
  }

  lemma {:induction false} NoPairNoLoser(aps: Aps, l: nat)
    requires forall x, y | 0 <= x < y < |aps| :: !VirtualPair(aps[x], aps[y])
    ensures !Loser(aps, l)
  {
    if Loser(aps, l) {
      var x, y := LoserIsPairLoser(aps, l);
    }
  }

  /** The body of the pair loops: pick the removal candidate of a similar pair and compare it with the worst so far. */
  method ConsiderPair(aps: Aps, worst: Option<nat>, i: nat, j: nat) returns (r: Option<nat>)
    requires DistinctMacs(aps) && i < j < |aps| && !aps[i].h.connected && !aps[j].h.connected
    requires worst.Some? ==> Loser(aps, worst.value)
    ensures r.Some? ==> Loser(aps, r.value)
    ensures Covers(aps, r, i, j)
    ensures forall x, y | 0 <= x < y < |aps| && Covers(aps, worst, x, y) :: Covers(aps, r, x, y)
  {
    var macDiff, _ := MacSimilar(aps[i].ap.mac, aps[j].ap.mac);
    if macDiff == 0 {
      return worst;
    }
    var preferred := CompareConnectedUsed(aps[i], aps[j]);
    var vapA := if preferred > 0 || (preferred == 0 && macDiff < 0) then j else i;
    assert vapA == PairLoser(aps, i, j);
    PairLoserLoses(aps, i, j);
    if worst.None? || Outranks(aps[vapA], aps[worst.value]) {
      r := Some(vapA);
    } else {
      r := worst;
    }
    CoverStep(aps, worst, r, vapA);
  }

  /** Moving to a candidate that outranks the old one, or staying with one the new does not outrank, loses no cover. */
  lemma {:induction false} CoverStep(aps: Aps, before: Option<nat>, after: Option<nat>, cand: nat)
    requires DistinctMacs(aps) && cand < |aps| && (before.Some? ==> before.value < |aps|)
    requires after == if before.None? || Outranks(aps[cand], aps[before.value]) then Some(cand) else before
    ensures after.value == cand || Outranks(aps[after.value], aps[cand])
    ensures forall x, y | 0 <= x < y < |aps| && Covers(aps, before, x, y) :: Covers(aps, after, x, y)
  {
    if after != Some(cand) {
      var a, c := aps[before.value], aps[cand];
      if MacNumber(a.ap.mac) == MacNumber(c.ap.mac) {
        MacNumberInjective(a.ap.mac, c.ap.mac);
      }
    } else if before.Some? {
      forall x, y | 0 <= x < y < |aps| && Covers(aps, before, x, y) ensures Covers(aps, after, x, y) {
        OutranksTransitive(aps[cand], aps[before.value], aps[PairLoser(aps, x, y)]);
      }
    }
  }

  /** What the virtual rule guarantees: the victim is not connected; a similar unconnected access point stays whose
      flags are no worse, with the lower address when the flags tie; and there is only one possible victim. */
  lemma {:induction false} VirtualVictimIsSafe(aps: Aps, v: nat, w: nat)
    requires DistinctMacs(aps) && IsVirtualVictim(aps, v)
    ensures !aps[v].h.connected
    ensures exists k :: 0 <= k < |aps| && k != v && !aps[k].h.connected && Similar(aps[k].ap.mac, aps[v].ap.mac)
              && CompareConnectedUsed(aps[v], aps[k]) <= 0
              && (CompareConnectedUsed(aps[v], aps[k]) == 0 ==> MacLess(aps[k].ap.mac, aps[v].ap.mac))
    ensures IsVirtualVictim(aps, w) ==> v == w
  {
    OutranksAsymmetric(aps, v, w);
  }

  lemma {:induction false} OutranksAsymmetric(aps: Aps, v: nat, w: nat)
    requires v < |aps|
    ensures w < |aps| && Outranks(aps[v], aps[w]) ==> !Outranks(aps[w], aps[v])
  {}

  /** Two pairs, the first of used access points: its loser is the victim. */
  lemma {:induction false} UsedPairLoses(aps: Aps)
    requires |aps| == 4
    requires VirtualPair(aps[0], aps[1]) && Kept(aps[0], aps[1])
    requires VirtualPair(aps[2], aps[3]) && Kept(aps[2], aps[3])
    requires forall k | 1 <= k < 4 :: !Kept(aps[k], aps[0])
    requires Outranks(aps[1], aps[2]) && Outranks(aps[1], aps[3])
    ensures IsVirtualVictim(aps, 1) && Loser(aps, 3)
  {
    assert Loser(aps, 1) && !Loser(aps, 0);
  }

  /** The rule removes a used access point although an unused loser is available, against the source's comment. */
  lemma {:induction false} VirtualRulePrefersUsed()
    ensures exists aps: Aps :: DistinctMacs(aps) && |aps| == 4 && IsVirtualVictim(aps, 1) && Loser(aps, 3)
              && aps[1].ap.used && !aps[3].ap.used
  {
    var h := Header(0, -50, false);
    var m0: Mac, m1: Mac, m2: Mac, m3: Mac :=
      [4, 0, 0, 0, 0, 0], [4, 0, 0, 0, 0, 1], [8, 0, 0, 0, 0, 0], [8, 0, 0, 0, 0, 1];
    MacsOfTwoPairs(m0, m1, m2, m3);
    var aps: Aps := [Ap(h, ApData(m0, 0, true)), Ap(h, ApData(m1, 0, true)),
                     Ap(h, ApData(m2, 0, false)), Ap(h, ApData(m3, 0, false))];
    UsedPairLoses(aps);
  }

  /** The victim has the worst flags among the losers exactly if all losers agree on being used. */
  lemma {:induction false} VirtualRuleTakesWorstIff(aps: Aps, v: nat)
    requires DistinctMacs(aps) && IsVirtualVictim(aps, v)
    ensures (forall l: nat | Loser(aps, l) :: CompareConnectedUsed(aps[v], aps[l]) <= 0) <==>
            (forall l: nat, m: nat | Loser(aps, l) && Loser(aps, m) :: aps[l].ap.used == aps[m].ap.used)
  {
    if forall l: nat | Loser(aps, l) :: CompareConnectedUsed(aps[v], aps[l]) <= 0 {
      forall l: nat | Loser(aps, l) ensures aps[l].ap.used == aps[v].ap.used {
        if l != v {
          assert Outranks(aps[v], aps[l]);
        }
      }
    }
  }

  lemma {:induction false} MacsOfTwoPairs(m0: Mac, m1: Mac, m2: Mac, m3: Mac)
    requires m0 == [4, 0, 0, 0, 0, 0] && m1 == [4, 0, 0, 0, 0, 1] && m2 == [8, 0, 0, 0, 0, 0] && m3 == [8, 0, 0, 0, 0, 1]
    ensures Similar(m0, m1) && Similar(m2, m3)
    ensures MacLess(m0, m1) && MacLess(m1, m2) && MacLess(m2, m3)
  {
    OneDifference(m0, m1, 11, 12);
    OneDifference(m2, m3, 11, 12);
  }

  // ----- the oldest access point -----

  /** The first access point of the greatest age, if ages differ at all. */
  ghost predicate IsOldest(aps: Aps, v: nat) {
    && v < |aps|
    && (forall k | 0 <= k < |aps| :: aps[k].h.age <= aps[v].h.age)
    && (forall k | 0 <= k < v :: aps[k].h.age < aps[v].h.age)
    && (exists k :: 0 <= k < |aps| && aps[k].h.age < aps[v].h.age)
  }

  ghost predicate SameAge(aps: Aps) {
    forall i, j | 0 <= i < |aps| && 0 <= j < |aps| :: aps[i].h.age == aps[j].h.age
  }

  /** The scan of remove_oldest_ap. The youngest age starts at UINT_MAX, the oldest at 0. */
  method FindOldest(aps: Aps) returns (oldest: Option<nat>)
    requires |aps| > 0
    ensures oldest.Some? ==> IsOldest(aps, oldest.value)
    ensures oldest.None? <==> SameAge(aps)
  {
    var oldestIdx := -1;
    var oldestAge: Uint32, youngestAge: Uint32 := 0, 0xFFFF_FFFF;
    ghost var youngest := 0;
    for i := 0 to |aps|
      invariant -1 <= oldestIdx < i
      invariant forall k | 0 <= k < i :: youngestAge <= aps[k].h.age <= oldestAge
      invariant i == 0 ==> youngestAge == 0xFFFF_FFFF && oldestAge == 0 && youngest == 0
      invariant i > 0 ==> 0 <= youngest < i && aps[youngest].h.age == youngestAge
      invariant oldestIdx == -1 ==> oldestAge == 0
      invariant oldestIdx >= 0 ==> aps[oldestIdx].h.age == oldestAge && forall k | 0 <= k < oldestIdx :: aps[k].h.age < oldestAge
    {
      if aps[i].h.age < youngestAge {
        youngestAge := aps[i].h.age;
        youngest := i;
      }
      if aps[i].h.age > oldestAge {
        oldestAge := aps[i].h.age;
        oldestIdx := i;
      }
    }
    if youngestAge != oldestAge && oldestIdx != -1 {
      return Some(oldestIdx);
    }
    return None;
  }

  /** Ages agree exactly if there is no oldest access point, and there is only one. */
  lemma {:induction false} OldestIsUnique(aps: Aps, v: nat, w: nat)
    ensures IsOldest(aps, v) ==> !SameAge(aps)
    ensures IsOldest(aps, v) && IsOldest(aps, w) ==> v == w
    ensures IsOldest(aps, v) ==> forall k | 0 <= k < |aps| && aps[k].h.age >= aps[v].h.age :: v <= k && aps[k].h.age == aps[v].h.age
  {}

  // ----- priorities -----

  /** The rank of an access point's signal against an even spread: 128 minus the distance from its place in the
      spread, plus 512 if connected. Exact numbers stand for the source's floats. */
  function Priority(aps: Aps, j: nat): real
    requires 2 <= |aps| && j < |aps|
  {
    var highest := EffectiveRssi(aps[0].h.rssi);
    var lowest := EffectiveRssi(aps[|aps| - 1].h.rssi);
    var off := EffectiveRssi(aps[j].h.rssi) as real - Ideal(highest, lowest, |aps|, j);
    (if aps[j].h.connected then 512.0 else 0.0) + 128.0 - (if off < 0.0 then -off else off)
  }

  /** The j-th of n readings spread evenly from the highest to the lowest. */
  function Ideal(highest: int, lowest: int, n: nat, j: nat): real
    requires 2 <= n
  {
    var bandWidth := (highest as real - lowest as real) / (n - 1) as real;
    highest as real - bandWidth * j as real
  }

  lemma {:induction false} IdealInRange(highest: int, lowest: int, n: nat, j: nat)
    requires 2 <= n && j < n && lowest <= highest
    ensures lowest as real <= Ideal(highest, lowest, n, j) <= highest as real
  {
    var w := (highest as real - lowest as real) / (n - 1) as real;
    assert w * (n - 1) as real == highest as real - lowest as real;
    ScaleBound(w, j as real, (n - 1) as real);
  }

  lemma {:induction false} ScaleBound(w: real, j: real, n: real)
    requires 0.0 <= j <= n && 0.0 <= w
    ensures 0.0 <= w * j <= w * n
  {}

  /** No deviation exceeds the range of the readings, so a connected access point outweighs every unconnected one. */
  lemma {:induction false} PriorityBands(aps: Aps, j: nat)
    requires 2 <= |aps| && j < |aps| && StrongestFirst(aps)
    requires forall i | 0 <= i < |aps| :: -127 <= EffectiveRssi(aps[i].h.rssi) <= -10
    ensures aps[j].h.connected ==> 523.0 <= Priority(aps, j) <= 640.0
    ensures !aps[j].h.connected ==> 11.0 <= Priority(aps, j) <= 128.0
  {
    IdealInRange(EffectiveRssi(aps[0].h.rssi), EffectiveRssi(aps[|aps| - 1].h.rssi), |aps|, j);
  }

  /** How far a reading is from its place in an even spread from first to last, times the number of gaps. */
  function Deviation(aps: Aps, j: nat): int
    requires 2 <= |aps| && j < |aps|
  {
    var first, last, gaps := EffectiveRssi(aps[0].h.rssi), EffectiveRssi(aps[|aps| - 1].h.rssi), |aps| - 1;
    EffectiveRssi(aps[j].h.rssi) * gaps - (first * (gaps - j) + last * j)
  }

  /** Priorities without fractions: 128, 512 more if connected, less the deviation. So the strongest and the weakest
      access point, and all of an evenly spread list, lose nothing. */
  lemma {:induction false} PriorityIs(aps: Aps, j: nat)
    requires 2 <= |aps| && j < |aps|
    ensures var lost := (if aps[j].h.connected then 640.0 else 128.0) - Priority(aps, j);
            && lost * (|aps| - 1) as real == (if Deviation(aps, j) < 0 then -Deviation(aps, j) else Deviation(aps, j)) as real
            && (lost == 0.0 <==> Deviation(aps, j) == 0)
            && (j == 0 || j == |aps| - 1 ==> lost == 0.0)
  {
    var first, last, gaps := EffectiveRssi(aps[0].h.rssi), EffectiveRssi(aps[|aps| - 1].h.rssi), |aps| - 1;
    var off := EffectiveRssi(aps[j].h.rssi) as real - Ideal(first, last, |aps|, j);
    LostIs(aps, j, off);
    LostScaled(EffectiveRssi(aps[j].h.rssi), first, last, gaps, j, off);
    EndsDoNotDeviate(first, last, gaps, j);
  }

  lemma {:induction false} LostIs(aps: Aps, j: nat, off: real)
    requires 2 <= |aps| && j < |aps|
    requires off == EffectiveRssi(aps[j].h.rssi) as real
                    - Ideal(EffectiveRssi(aps[0].h.rssi), EffectiveRssi(aps[|aps| - 1].h.rssi), |aps|, j)
    ensures (if aps[j].h.connected then 640.0 else 128.0) - Priority(aps, j) == if off < 0.0 then -off else off
  {}

  lemma {:induction false} LostScaled(r: int, first: int, last: int, gaps: nat, j: nat, off: real)
    requires gaps > 0 && off == r as real - Ideal(first, last, gaps + 1, j)
    ensures var d, lost := r * gaps - (first * (gaps - j) + last * j), if off < 0.0 then -off else off;
            && lost * gaps as real == (if d < 0 then -d else d) as real
            && (lost == 0.0 <==> d == 0)
  {
    IdealScaled(first, last, gaps, j);
    DeviationScaled(r, first, last, gaps, j, Ideal(first, last, gaps + 1, j));
  }

  lemma {:induction false} IdealScaled(first: int, last: int, gaps: nat, j: nat)
    requires gaps > 0
    ensures Ideal(first, last, gaps + 1, j) * gaps as real == (first * (gaps - j) + last * j) as real
  {
    var w := (first as real - last as real) / gaps as real;
    assert w * gaps as real == first as real - last as real;
    calc {
      Ideal(first, last, gaps + 1, j) * gaps as real;
    ==
      first as real * gaps as real - w * j as real * gaps as real;
    ==
      first as real * gaps as real - (w * gaps as real) * j as real;
    ==
      first as real * gaps as real - (first as real - last as real) * j as real;
    ==
      (first * gaps) as real - ((first - last) * j) as real;
    ==
      (first * gaps - (first - last) * j) as real;
    }
    assert first * gaps - (first - last) * j == first * (gaps - j) + last * j;
  }

  lemma {:induction false} DeviationScaled(r: int, first: int, last: int, gaps: nat, j: nat, ideal: real)
    requires gaps > 0 && ideal * gaps as real == (first * (gaps - j) + last * j) as real
    ensures var d, off := r * gaps - (first * (gaps - j) + last * j), r as real - ideal;
            && off * gaps as real == d as real
            && (off < 0.0 <==> d < 0) && (off == 0.0 <==> d == 0)
            && (-off) * gaps as real == (-d) as real
  {
    var d, off := r * gaps - (first * (gaps - j) + last * j), r as real - ideal;
    assert off * gaps as real == r as real * gaps as real - ideal * gaps as real;
    assert off * gaps as real == d as real;
    SignScaled(off, gaps as real);
  }

  lemma {:induction false} SignScaled(x: real, n: real)
    requires n > 0.0
    ensures (x * n < 0.0 <==> x < 0.0) && (x * n == 0.0 <==> x == 0.0) && (-x) * n == -(x * n)
  {}

  lemma {:induction false} EndsDoNotDeviate(first: int, last: int, gaps: nat, j: nat)
    ensures j == 0 ==> first * gaps - (first * (gaps - j) + last * j) == 0
    ensures j == gaps ==> last * gaps - (first * (gaps - j) + last * j) == 0
  {}

  /** Jumps alternate, forwards first. */
  function Direction(k: nat): (d: int)
    ensures d == 1 || d == -1
  {
    if k == 0 then 1 else -Direction(k - 1)
  }

  /** The k-th position the zigzag loop visits, one jump after the other, each a step shorter: 0, n-1, 1, n-2, ... */
  function Zig(n: nat, k: nat): int {
    if k == 0 then 0 else if Direction(k - 1) > 0 then Zig(n, k - 1) + (n - k) else Zig(n, k - 1) - (n - k)
  }

  lemma {:induction false} ZigClosedForm(n: nat, k: nat)
    requires k < n
    ensures Direction(k) == if k % 2 == 0 then 1 else -1
    ensures Zig(n, k) == if k % 2 == 0 then k / 2 else n - (k + 1) / 2
    ensures 0 <= Zig(n, k) < n
  {
    if k > 0 {
      ZigClosedForm(n, k - 1);
    }
  }

  /** When position j is visited. */
  function Visit(n: nat, j: nat): (k: nat)
    requires j < n
  {
    if 2 * j < n then 2 * j else 2 * (n - j) - 1
  }

  /** The loop visits every position exactly once. */
  lemma {:induction false} ZigzagIsPermutation(n: nat, j: nat, k: nat)
    requires j < n && k < n
    ensures Visit(n, j) < n && 0 <= Zig(n, k) < n
    ensures Zig(n, k) == j <==> k == Visit(n, j)
  {
    ZigClosedForm(n, k);
    VisitInverse(n, j, k, Zig(n, k));
  }

  lemma {:induction false} VisitInverse(n: nat, j: nat, k: nat, z: int)
    requires j < n && k < n && z == if k % 2 == 0 then k / 2 else n - (k + 1) / 2
    ensures z == j <==> k == Visit(n, j)
  {
    var q := k / 2;
    if k % 2 == 0 {
      assert k == 2 * q && z == q;
    } else {
      assert k == 2 * q + 1 && z == n - q - 1;
    }
  }

  /** What decides the choice: priorities, addresses and weakness by position, and whether the weak mode is on. */
  datatype Field = Field(prio: seq<real>, macs: seq<Mac>, weak: seq<bool>, weakOnly: bool) {
    predicate Shaped() {
      |prio| == |macs| == |weak|
    }
  }

  datatype Choice = Choice(idx: nat, prio: real)

  const HIGHEST_PRIORITY: real := 65535.0

  predicate Replaces(f: Field, j: nat, c: Choice)
    requires f.Shaped() && j < |f.prio| && c.idx < |f.prio|
  {
    && ((f.weakOnly && f.weak[j]) || f.prio[j] <= c.prio)
    && (f.prio[j] != c.prio || MacLess(f.macs[c.idx], f.macs[j]))
  }

  /** The position of the i-th visit. */
  function At(f: Field, i: nat): (j: nat)
    requires i < |f.prio|
    ensures j < |f.prio|
  {
    ZigClosedForm(|f.prio|, i);
    Zig(|f.prio|, i)
  }

  function Replaced(f: Field, j: nat, c: Choice): (r: Choice)
    requires f.Shaped() && j < |f.prio| && c.idx < |f.prio|
    ensures r.idx < |f.prio|
  {
    if Replaces(f, j, c) then Choice(j, f.prio[j]) else c
  }

  /** The choice after k visits. */
  function Chosen(f: Field, k: nat): (c: Choice)
    requires f.Shaped() && k <= |f.prio| && |f.prio| > 0
    ensures c.idx < |f.prio|
  {
    var n := |f.prio|;
    if k == 0 then Choice(n / 2, HIGHEST_PRIORITY) else
      var c := Chosen(f, k - 1);
      Replaced(f, At(f, k - 1), c)
  }

  function FieldOf(aps: Aps, negRssiThreshold: nat): (f: Field)
    requires 2 <= |aps|
    ensures f.Shaped() && |f.prio| == |aps|
  {
    Field(seq(|aps|, j requires 0 <= j < |aps| => Priority(aps, j)),
          seq(|aps|, j requires 0 <= j < |aps| => aps[j].ap.mac),
          seq(|aps|, j requires 0 <= j < |aps| => IsWeak(aps[j], negRssiThreshold)),
          IsWeak(aps[|aps| - 1], negRssiThreshold))
  }

  predicate IsWeak(b: ApBeacon, negRssiThreshold: nat) {
    EffectiveRssi(b.h.rssi) < 0 - negRssiThreshold as int
  }

  /** The position set_priorities answers. With fewer than two access points it is 0. */
  function WorstIndex(aps: Aps, negRssiThreshold: nat): (v: nat)
    ensures |aps| > 0 ==> v < |aps|
  {
    if |aps| < 2 then 0 else Chosen(FieldOf(aps, negRssiThreshold), |aps|).idx
  }

  /** The zigzag loop of set_priorities. For one access point the source divides zero by zero and every
      comparison with the result fails or lands on position 0; for none the loop body is not reached. */
  method SetPriorities(aps: Aps, negRssiThreshold: nat) returns (idxOfWorst: nat)
    ensures idxOfWorst == WorstIndex(aps, negRssiThreshold)
  {
    var n := |aps|;
    if n < 2 {
      return 0;
    }
    ghost var f := FieldOf(aps, negRssiThreshold);
    idxOfWorst := n / 2;
    var priorityOfWorst := HIGHEST_PRIORITY;
    var weakOnly := IsWeak(aps[n - 1], negRssiThreshold);
    var jump, upDown, j := n, 1, 0;
    ghost var k := 0;
    while 0 <= j < n && jump > 0
      invariant 0 <= k <= n && jump == n - k
      invariant k < n ==> j == At(f, k)
      invariant upDown == Direction(k)
      invariant idxOfWorst < n && Chosen(f, k) == Choice(idxOfWorst, priorityOfWorst)
      decreases jump
    {
      idxOfWorst, priorityOfWorst := Weigh(aps, negRssiThreshold, weakOnly, j, idxOfWorst, priorityOfWorst);
      ChosenStep(f, k);
      NextJump(f, k);
      k := k + 1;
      jump := jump - 1;
      j := j + upDown * jump;
      upDown := -upDown;
    }
  }

  /** The loop body: keep the worst so far or take position j. */
  method Weigh(aps: Aps, negRssiThreshold: nat, weakOnly: bool, j: nat, idxOfWorst: nat, priorityOfWorst: real)
    returns (idx: nat, prio: real)
    requires 2 <= |aps| && j < |aps| && idxOfWorst < |aps|
    requires weakOnly == FieldOf(aps, negRssiThreshold).weakOnly
    ensures Choice(idx, prio) == Replaced(FieldOf(aps, negRssiThreshold), j, Choice(idxOfWorst, priorityOfWorst))
  {
    idx, prio := idxOfWorst, priorityOfWorst;
    var p := GetPriority(aps, negRssiThreshold, j);
    FieldAt(aps, negRssiThreshold, j);
    FieldAt(aps, negRssiThreshold, idxOfWorst);
    if (weakOnly && IsWeak(aps[j], negRssiThreshold)) || p <= priorityOfWorst {
      if p != priorityOfWorst || MacLess(aps[idxOfWorst].ap.mac, aps[j].ap.mac) {
        idx := j;
        prio := p;
      }
    }
  }

  lemma {:induction false} ChosenStep(f: Field, k: nat)
    requires f.Shaped() && k < |f.prio|
    ensures Chosen(f, k + 1) == Replaced(f, At(f, k), Chosen(f, k))
  {}

  lemma {:induction false} NextJump(f: Field, k: nat)
    requires f.Shaped() && k < |f.prio|
    ensures Direction(k + 1) == -Direction(k)
    ensures k + 1 < |f.prio| ==> At(f, k + 1) == At(f, k) + Direction(k) * (|f.prio| - k - 1)
  {}

  method GetPriority(aps: Aps, negRssiThreshold: nat, j: nat) returns (p: real)
    requires 2 <= |aps| && j < |aps|
    ensures p == Priority(aps, j) == FieldOf(aps, negRssiThreshold).prio[j]
  {
    p := Priority(aps, j);
  }

  /** m has the least priority, with ties going to the greatest address. */
  ghost predicate IsLeast(f: Field, m: nat)
    requires f.Shaped()
  {
    && m < |f.prio|
    && forall j | 0 <= j < |f.prio| && j != m ::
         f.prio[m] < f.prio[j] || (f.prio[m] == f.prio[j] && MacLess(f.macs[j], f.macs[m]))
  }

  /** Every weak position visited after m in weak mode has the priority of m. */
  ghost predicate NoLaterWeak(f: Field, m: nat, k: nat)
    requires f.Shaped() && m < |f.prio| && k <= |f.prio|
  {
    forall i | Visit(|f.prio|, m) < i < k && f.weakOnly && f.weak[At(f, i)] :: f.prio[At(f, i)] == f.prio[m]
  }

  /** The priority carried along is that of the position chosen, and above all priorities before the first visit. */
  lemma {:induction false} ChosenPriority(f: Field, k: nat)
    requires f.Shaped() && k <= |f.prio| && |f.prio| > 0
    requires forall j | 0 <= j < |f.prio| :: f.prio[j] < HIGHEST_PRIORITY
    ensures Chosen(f, k).prio == if k == 0 then HIGHEST_PRIORITY else f.prio[Chosen(f, k).idx]
  {
    if k > 0 {
      ChosenPriority(f, k - 1);
    }
  }

  /** After k visits: before the least position is visited the choice is something else; afterwards it is that position
      exactly as long as no other weak position has displaced it. */
  ghost predicate LeastAfter(f: Field, m: nat, k: nat)
    requires f.Shaped() && 0 < k <= |f.prio| && m < |f.prio|
  {
    && (k <= Visit(|f.prio|, m) ==> Chosen(f, k).idx != m)
    && (k > Visit(|f.prio|, m) ==> (Chosen(f, k).idx == m <==> NoLaterWeak(f, m, k)))
  }

  lemma {:induction false} ChosenIsLeastIff(f: Field, m: nat, k: nat)
    requires f.Shaped() && 0 < k <= |f.prio| && IsLeast(f, m)
    requires forall j | 0 <= j < |f.prio| :: f.prio[j] < HIGHEST_PRIORITY
    ensures LeastAfter(f, m, k)
  {
    if k > 1 {
      ChosenIsLeastIff(f, m, k - 1);
    }
    NextVisit(f, m, k - 1);
  }

  lemma {:induction false} NextVisit(f: Field, m: nat, k: nat)
    requires f.Shaped() && k < |f.prio| && IsLeast(f, m)
    requires forall j | 0 <= j < |f.prio| :: f.prio[j] < HIGHEST_PRIORITY
    requires k > 0 ==> LeastAfter(f, m, k)
    ensures LeastAfter(f, m, k + 1)
  {
    ChosenPriority(f, k);
    if k == Visit(|f.prio|, m) {
      LeastVisited(f, m, k);
    } else {
      OtherVisited(f, m, k);
    }
  }

  /** Visit k is that of the least position. */
  lemma {:induction false} LeastVisited(f: Field, m: nat, k: nat)
    requires f.Shaped() && k < |f.prio| && IsLeast(f, m) && k == Visit(|f.prio|, m)
    requires forall j | 0 <= j < |f.prio| :: f.prio[j] < HIGHEST_PRIORITY
    requires k > 0 ==> LeastAfter(f, m, k) && Chosen(f, k).prio == f.prio[Chosen(f, k).idx]
    ensures LeastAfter(f, m, k + 1)
  {
    ZigzagIsPermutation(|f.prio|, m, k);
    LeastReplaces(f, m, Chosen(f, k));
  }

  /** Visit k is that of another position. */
  lemma {:induction false} OtherVisited(f: Field, m: nat, k: nat)
    requires f.Shaped() && k < |f.prio| && IsLeast(f, m) && k != Visit(|f.prio|, m)
    requires forall j | 0 <= j < |f.prio| :: f.prio[j] < HIGHEST_PRIORITY
    requires k > 0 ==> LeastAfter(f, m, k) && Chosen(f, k).prio == f.prio[Chosen(f, k).idx]
    ensures LeastAfter(f, m, k + 1)
  {
    ZigzagIsPermutation(|f.prio|, m, k);
    if k == 0 {
      ChosenFirst(f, m);
    } else {
      LeastStaysUnlessWeak(f, m, At(f, k), Chosen(f, k));
      if k > Visit(|f.prio|, m) {
        NoLaterWeakStep(f, m, k);
      }
    }
  }

  lemma {:induction false} ChosenFirst(f: Field, m: nat)
    requires f.Shaped() && |f.prio| > 0 && m < |f.prio| && Visit(|f.prio|, m) != 0
    requires forall j | 0 <= j < |f.prio| :: f.prio[j] < HIGHEST_PRIORITY
    ensures Chosen(f, 1).idx != m
  {
    ZigzagIsPermutation(|f.prio|, m, 0);
  }

  /** When the least position is visited it is taken: nothing chosen before is as low. */
  lemma {:induction false} LeastReplaces(f: Field, m: nat, c: Choice)
    requires f.Shaped() && IsLeast(f, m) && c.idx < |f.prio|
    requires c.prio == HIGHEST_PRIORITY || (c.prio == f.prio[c.idx] && c.idx != m)
    requires forall j | 0 <= j < |f.prio| :: f.prio[j] < HIGHEST_PRIORITY
    ensures Replaced(f, m, c).idx == m
  {}

  lemma {:induction false} NoLaterWeakStep(f: Field, m: nat, k: nat)
    requires f.Shaped() && m < |f.prio| && Visit(|f.prio|, m) < k < |f.prio|
    ensures NoLaterWeak(f, m, k + 1) <==>
            NoLaterWeak(f, m, k) && (f.weakOnly && f.weak[At(f, k)] ==> f.prio[At(f, k)] == f.prio[m])
  {}

  /** After the least position is chosen, another replaces it only if it is weak and of another priority; once it is
      displaced it is not chosen again, being visited only once. */
  lemma {:induction false} LeastStaysUnlessWeak(f: Field, m: nat, j: nat, c: Choice)
    requires f.Shaped() && IsLeast(f, m) && j < |f.prio| && c.idx < |f.prio| && j != m
    requires c.prio == f.prio[c.idx]
    ensures Replaced(f, j, c).idx == m <==> c.idx == m && (f.weakOnly && f.weak[j] ==> f.prio[j] == f.prio[m])
  {}

  /** set_priorities answers the least priority (ties to the greatest address) exactly when no weak access point
      of another priority is visited after it in weak mode. */
  lemma {:induction false} WorstIsLeastIff(aps: Aps, thr: nat, m: nat)
    requires 2 <= |aps| && StrongestFirst(aps)
    requires forall i | 0 <= i < |aps| :: -127 <= EffectiveRssi(aps[i].h.rssi) <= -10
    requires IsLeast(FieldOf(aps, thr), m)
    ensures WorstIndex(aps, thr) == m <==> NoLaterWeak(FieldOf(aps, thr), m, |aps|)
  {
    var f := FieldOf(aps, thr);
    forall j | 0 <= j < |aps| ensures f.prio[j] < HIGHEST_PRIORITY {
      PriorityBands(aps, j);
    }
    ZigzagIsPermutation(|aps|, m, 0);
    ChosenIsLeastIff(f, m, |aps|);
  }

  /** When the weakest access point is not below the threshold the answer is always the least priority. */
  lemma {:induction false} StrongModeIsLeast(aps: Aps, thr: nat, m: nat)
    requires 2 <= |aps| && StrongestFirst(aps)
    requires forall i | 0 <= i < |aps| :: -127 <= EffectiveRssi(aps[i].h.rssi) <= -10
    requires !IsWeak(aps[|aps| - 1], thr) && IsLeast(FieldOf(aps, thr), m)
    ensures WorstIndex(aps, thr) == m
  {
    WorstIsLeastIff(aps, thr, m);
  }

  /** Distinct addresses make the least position exist. */
  lemma {:induction false} LeastExists(f: Field, n: nat) returns (m: nat)
    requires f.Shaped() && 0 < n <= |f.prio|
    requires forall i, j | 0 <= i < j < |f.prio| :: f.macs[i] != f.macs[j]
    ensures m < n
    ensures forall j | 0 <= j < n && j != m ::
              f.prio[m] < f.prio[j] || (f.prio[m] == f.prio[j] && MacLess(f.macs[j], f.macs[m]))
  {
    if n == 1 {
      m := 0;
    } else {
      m := LeastExists(f, n - 1);
      var j := n - 1;
      if MacNumber(f.macs[m]) == MacNumber(f.macs[j]) {
        MacNumberInjective(f.macs[m], f.macs[j]);
      }
      if f.prio[j] < f.prio[m] || (f.prio[j] == f.prio[m] && MacLess(f.macs[m], f.macs[j])) {
        m := j;
      }
    }
  }

  lemma {:induction false} BandsDecide(aps: Aps, m: nat, i: nat)
    requires 2 <= |aps| && StrongestFirst(aps) && m < |aps| && i < |aps|
    requires forall i | 0 <= i < |aps| :: -127 <= EffectiveRssi(aps[i].h.rssi) <= -10
    requires Priority(aps, m) <= Priority(aps, i) && aps[m].h.connected
    ensures aps[i].h.connected
  {
    PriorityBands(aps, i);
    PriorityBands(aps, m);
  }

  lemma {:induction false} FieldAt(aps: Aps, thr: nat, j: nat)
    requires 2 <= |aps| && j < |aps|
    ensures FieldOf(aps, thr).prio[j] == Priority(aps, j)
    ensures FieldOf(aps, thr).macs[j] == aps[j].ap.mac
    ensures FieldOf(aps, thr).weak[j] == IsWeak(aps[j], thr)
  {}

  /** In strong mode a connected access point is chosen only if all are connected. */
  lemma {:induction false} StrongModeSparesConnected(aps: Aps, thr: nat)
    requires 2 <= |aps| && StrongestFirst(aps) && DistinctMacs(aps)
    requires forall i | 0 <= i < |aps| :: -127 <= EffectiveRssi(aps[i].h.rssi) <= -10
    requires !IsWeak(aps[|aps| - 1], thr)
    ensures aps[WorstIndex(aps, thr)].h.connected ==> forall i | 0 <= i < |aps| :: aps[i].h.connected
  {
    var f := FieldOf(aps, thr);
    forall i, j | 0 <= i < j < |aps| ensures f.macs[i] != f.macs[j] {
      FieldAt(aps, thr, i);
      FieldAt(aps, thr, j);
    }
    var m := LeastExists(f, |aps|);
    StrongModeIsLeast(aps, thr, m);
    forall i | 0 <= i < |aps| && aps[m].h.connected ensures aps[i].h.connected {
      FieldAt(aps, thr, i);
      FieldAt(aps, thr, m);
      BandsDecide(aps, m, i);
    }
  }

  /** The visit that decides the class of the answer: in weak mode the last that lands on a weak position, otherwise
      the first. */
  function DecidingVisit(f: Field, k: nat): (w: nat)
    requires f.Shaped() && 0 < k <= |f.prio|
    ensures w < k
  {
    if k == 1 || (f.weakOnly && f.weak[At(f, k - 1)]) then k - 1 else DecidingVisit(f, k - 1)
  }

  /** The positions fall into two classes, all priorities of one above all of the other. */
  ghost predicate Banded(f: Field, upper: seq<bool>)
    requires f.Shaped()
  {
    && |upper| == |f.prio|
    && forall i, j | 0 <= i < |upper| && 0 <= j < |upper| && upper[i] && !upper[j] :: f.prio[j] < f.prio[i]
  }

  ghost predicate AllUpper(f: Field, upper: seq<bool>, w: nat, k: nat)
    requires f.Shaped() && |upper| == |f.prio| && k <= |f.prio|
  {
    forall i | w <= i < k :: upper[At(f, i)]
  }

  /** The deciding visit leaves its own priority; every visit after it can only lower the class. */
  lemma {:induction false} ClassDecided(f: Field, upper: seq<bool>, k: nat)
    requires f.Shaped() && k < |f.prio| && Banded(f, upper)
    requires forall j | 0 <= j < |f.prio| :: f.prio[j] < HIGHEST_PRIORITY
    ensures upper[Chosen(f, k + 1).idx] <==> AllUpper(f, upper, DecidingVisit(f, k + 1), k + 1)
  {
    ChosenPriority(f, k);
    if DecidingVisit(f, k + 1) == k {
      ClassAtDecidingVisit(f, upper, k);
    } else {
      ClassDecided(f, upper, k - 1);
      ClassAtLaterVisit(f, upper, DecidingVisit(f, k), k);
    }
  }

  lemma {:induction false} ClassAtDecidingVisit(f: Field, upper: seq<bool>, k: nat)
    requires f.Shaped() && k < |f.prio| && Banded(f, upper) && f.prio[At(f, k)] < HIGHEST_PRIORITY
    requires k == 0 || (f.weakOnly && f.weak[At(f, k)] && Chosen(f, k).prio == f.prio[Chosen(f, k).idx])
    ensures upper[Chosen(f, k + 1).idx] <==> AllUpper(f, upper, k, k + 1)
  {
    ChosenStep(f, k);
    AllUpperStep(f, upper, k, k);
    DecidingVisitTaken(f, upper, At(f, k), Chosen(f, k));
  }

  lemma {:induction false} ClassAtLaterVisit(f: Field, upper: seq<bool>, w: nat, k: nat)
    requires f.Shaped() && w < k < |f.prio| && Banded(f, upper) && Chosen(f, k).prio == f.prio[Chosen(f, k).idx]
    requires !(f.weakOnly && f.weak[At(f, k)])
    requires upper[Chosen(f, k).idx] <==> AllUpper(f, upper, w, k)
    ensures upper[Chosen(f, k + 1).idx] <==> AllUpper(f, upper, w, k + 1)
  {
    ChosenStep(f, k);
    AllUpperStep(f, upper, w, k);
    LaterVisit(f, upper, At(f, k), Chosen(f, k));
  }

  lemma {:induction false} LaterVisit(f: Field, upper: seq<bool>, j: nat, c: Choice)
    requires f.Shaped() && Banded(f, upper) && j < |f.prio| && c.idx < |f.prio| && c.prio == f.prio[c.idx]
    requires !(f.weakOnly && f.weak[j])
    ensures upper[Replaced(f, j, c).idx] <==> upper[c.idx] && upper[j]
  {}

  lemma {:induction false} DecidingVisitTaken(f: Field, upper: seq<bool>, j: nat, c: Choice)
    requires f.Shaped() && Banded(f, upper) && j < |f.prio| && c.idx < |f.prio|
    requires c.prio == HIGHEST_PRIORITY > f.prio[j] || (c.prio == f.prio[c.idx] && f.weakOnly && f.weak[j])
    ensures upper[Replaced(f, j, c).idx] <==> upper[j]
  {}

  lemma {:induction false} AllUpperStep(f: Field, upper: seq<bool>, w: nat, k: nat)
    requires f.Shaped() && |upper| == |f.prio| && w <= k < |f.prio|
    ensures AllUpper(f, upper, w, k + 1) <==> AllUpper(f, upper, w, k) && upper[At(f, k)]
    ensures AllUpper(f, upper, k, k)
  {}

  /** Weak mode is on exactly if some access point is below the threshold; no reading is below a threshold of 127. */
  lemma {:induction false} WeakModeIff(aps: Aps, thr: nat)
    requires 2 <= |aps| && StrongestFirst(aps)
    requires forall i | 0 <= i < |aps| :: -127 <= EffectiveRssi(aps[i].h.rssi) <= -10
    ensures FieldOf(aps, thr).weakOnly <==> exists i :: 0 <= i < |aps| && EffectiveRssi(aps[i].h.rssi) + thr < 0
    ensures thr >= 127 ==> !FieldOf(aps, thr).weakOnly
  {
    if i :| 0 <= i < |aps| && EffectiveRssi(aps[i].h.rssi) + thr < 0 {
      assert EffectiveRssi(aps[i].h.rssi) >= EffectiveRssi(aps[|aps| - 1].h.rssi);
    }
  }

  /** What the deciding visit is, in terms of the access points. */
  lemma {:induction false} DecidingVisitIs(aps: Aps, thr: nat, k: nat)
    requires 2 <= |aps| && 0 < k <= |aps|
    ensures var f := FieldOf(aps, thr);
            var w := DecidingVisit(f, k);
            && (!IsWeak(aps[|aps| - 1], thr) ==> w == 0)
            && (IsWeak(aps[|aps| - 1], thr) && k > 1 ==> w > 0 && IsWeak(aps[At(f, w)], thr))
            && (IsWeak(aps[|aps| - 1], thr) ==> forall i | w < i < k :: !IsWeak(aps[At(f, i)], thr))
  {
    var f := FieldOf(aps, thr);
    FieldAt(aps, thr, At(f, k - 1));
    if k == 2 {
      ZigClosedForm(|aps|, 1);
    }
    if k > 1 {
      DecidingVisitIs(aps, thr, k - 1);
    }
  }

  function ConnectedFlags(aps: Aps): (c: seq<bool>)
    ensures |c| == |aps| && forall i | 0 <= i < |aps| :: c[i] == aps[i].h.connected
  {
    seq(|aps|, i requires 0 <= i < |aps| => aps[i].h.connected)
  }

  lemma {:induction false} ConnectedBands(aps: Aps, thr: nat)
    requires 2 <= |aps| && StrongestFirst(aps)
    requires forall i | 0 <= i < |aps| :: -127 <= EffectiveRssi(aps[i].h.rssi) <= -10
    ensures Banded(FieldOf(aps, thr), ConnectedFlags(aps))
    ensures forall j | 0 <= j < |aps| :: FieldOf(aps, thr).prio[j] < HIGHEST_PRIORITY
  {
    forall j | 0 <= j < |aps| ensures FieldOf(aps, thr).prio[j] < HIGHEST_PRIORITY
      && if aps[j].h.connected then FieldOf(aps, thr).prio[j] >= 523.0 else FieldOf(aps, thr).prio[j] <= 128.0
    {
      FieldAt(aps, thr, j);
      PriorityBands(aps, j);
    }
  }

  /** All access points visited from the deciding visit on are connected. */
  ghost predicate ConnectedFromThere(aps: Aps, thr: nat)
    requires 2 <= |aps|
  {
    var f := FieldOf(aps, thr);
    forall i | DecidingVisit(f, |aps|) <= i < |aps| :: aps[At(f, i)].h.connected
  }

  /** In either mode the answer is connected exactly if everything visited from the deciding visit on is: a connected
      access point goes although an unconnected one exists exactly if all those were visited before. */
  lemma {:induction false} SparesConnectedIff(aps: Aps, thr: nat)
    requires 2 <= |aps| && StrongestFirst(aps)
    requires forall i | 0 <= i < |aps| :: -127 <= EffectiveRssi(aps[i].h.rssi) <= -10
    ensures aps[WorstIndex(aps, thr)].h.connected <==> ConnectedFromThere(aps, thr)
  {
    var f, upper := FieldOf(aps, thr), ConnectedFlags(aps);
    ConnectedBands(aps, thr);
    ClassDecided(f, upper, |aps| - 1);
    assert AllUpper(f, upper, DecidingVisit(f, |aps|), |aps|) <==> ConnectedFromThere(aps, thr);
  }

  // a strong unconnected and a weak connected access point
  const STRONG_AP: ApBeacon := Ap(Header(0, -20, false), ApData([4, 0, 0, 0, 0, 0], 0, false))
  const WEAK_AP: ApBeacon := Ap(Header(0, -100, true), ApData([8, 0, 0, 0, 0, 0x11], 0, false))

  lemma {:induction false} WeakPairWorst(aps: Aps)
    requires aps == [STRONG_AP, WEAK_AP]
    ensures StrongestFirst(aps) && DistinctMacs(aps) && IsLeast(FieldOf(aps, 90), 0) && WorstIndex(aps, 90) == 1
  {
    assert aps[0].ap.mac[0] != aps[1].ap.mac[0];
    var f := FieldOf(aps, 90);
    PriorityBands(aps, 0);
    PriorityBands(aps, 1);
    assert IsLeast(f, 0);
    assert Visit(2, 0) == 0 && At(f, 1) == 1;
    assert f.weakOnly && f.weak[At(f, 1)] && f.prio[1] != f.prio[0];
    WorstIsLeastIff(aps, 90, 0);
  }

  /** In weak mode neither holds: the weak connected one of these two goes, although the other has less priority. */
  lemma {:induction false} WeakModeFails()
    ensures exists aps: Aps, m: nat ::
              && 2 <= |aps| && StrongestFirst(aps) && DistinctMacs(aps)
              && (forall i | 0 <= i < |aps| :: -127 <= EffectiveRssi(aps[i].h.rssi) <= -10)
              && IsLeast(FieldOf(aps, 90), m) && WorstIndex(aps, 90) != m
              && aps[WorstIndex(aps, 90)].h.connected && !aps[m].h.connected
  {
    var aps: Aps := [STRONG_AP, WEAK_AP];
    WeakPairWorst(aps);
  }

  /** Nor does another rule save it: the two are no virtual pair. */
  lemma {:induction false} WeakPairNoLoser(aps: Aps, l: nat)
    requires aps == [STRONG_AP, WEAK_AP]
    ensures !Loser(aps, l)
  {
    forall x, y | 0 <= x < y < |aps| ensures !VirtualPair(aps[x], aps[y]) {
      assert x == 0 && y == 1;
    }
    NoPairNoLoser(aps, l);
  }
}
