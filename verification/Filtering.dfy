/** One call of add_beacon on the list as a value: merge the beacon in, then drop one entry if there are too many of
    its class (libel/beacons.c and the two remove_worst of the plugins). */
module Filtering {
  import Macs
  import opened Beacons
  import opened SeqFacts
  import opened RequestList
  import opened ApEviction

  /** The settings that govern filtering. */
  datatype Policy = Policy(limits: Limits, negRssiThreshold: nat)

  predicate Sound(c: Policy) {
    WellFormed(c.limits)
  }

  /** The access points of a list, in order. */
  function ApsOf(s: List): (aps: Aps)
    ensures |aps| == NumAps(s)
  {
    SelectHas(IsAp, s);
    Select(IsAp, s)
  }

  lemma {:induction false} ApsOfPrefix(s: List)
    requires Invariant(s)
    ensures forall i | 0 <= i < NumAps(s) :: s[i].Ap? && ApsOf(s)[i] == s[i]
  {
    ApsArePrefix(s);
    if s != [] {
      var n := |s| - 1;
      PrefixKeeps(s, n);
      ApsOfPrefix(s[..n]);
    }
  }

  lemma {:induction false} PrefixKeeps(s: List, n: nat)
    requires Invariant(s) && n <= |s|
    ensures Invariant(s[..n])
  {
    var t := s[..n];
    assert forall i | 0 <= i < n :: t[i] == s[i];
  }

  /** The eviction rules may rely on distinct addresses and on strength order. */
  lemma {:induction false} ApsInOrder(s: List)
    requires Invariant(s)
    ensures DistinctMacs(ApsOf(s)) && StrongestFirst(ApsOf(s))
    ensures forall i | 0 <= i < NumAps(s) :: -127 <= EffectiveRssi(ApsOf(s)[i].h.rssi) <= -10
  {
    ApsOfPrefix(s);
    RankMeaning(s);
    var aps := ApsOf(s);
    forall i | 0 <= i < |aps| ensures -127 <= EffectiveRssi(aps[i].h.rssi) <= -10 {
      assert ValidBeacon(s[i]);
    }
    forall i, j | 0 <= i < j < |aps| ensures aps[i].ap.mac != aps[j].ap.mac {
      assert Unequal(s[i], s[j]);
    }
  }

  /** The access point that goes: the loser of a virtual group if there is one, else the oldest if ages differ, else
      the one the priorities point at. */
  ghost predicate IsVictim(aps: Aps, thr: nat, v: nat) {
    && v < |aps|
    && if exists l: nat :: Loser(aps, l) then IsVirtualVictim(aps, v)
       else if !SameAge(aps) then IsOldest(aps, v)
       else v == WorstIndex(aps, thr)
  }

  /** At most one position can be the victim. */
  lemma {:induction false} VictimIsUnique(aps: Aps, thr: nat, v: nat, w: nat)
    requires DistinctMacs(aps) && IsVictim(aps, thr, v) && IsVictim(aps, thr, w)
    ensures v == w
  {
    if exists l: nat :: Loser(aps, l) {
      VirtualVictimIsSafe(aps, v, w);
    } else if !SameAge(aps) {
      assert aps[v].h.age == aps[w].h.age;
    }
  }

  predicate InLimits(t: List, c: Limits)
    requires WellFormed(c)
  {
    NumAps(t) <= c.maxApBeacons && CellsFit(t, c)
  }

  /** sky_plugin_remove_worst: the access-point plugin is asked first, the cell plugin drops the last entry. */
  ghost predicate Filtered(c: Policy, t: List, s': List)
    requires Sound(c)
  {
    if NumAps(t) > c.limits.maxApBeacons then
      exists v: nat :: v < |t| && IsVictim(ApsOf(t), c.negRssiThreshold, v) && s' == Without(t, v)
    else |t| > 0 && s' == t[..|t| - 1]
  }

  /** What one successful add_beacon does with the list s. */
  ghost predicate AddStep(c: Policy, s: List, b: Beacon, s': List)
    requires Sound(c)
  {
    var t := Merged(s, b);
    if |t| == |s| || InLimits(t, c.limits) then s' == t else Filtered(c, t, s')
  }

  // ----- what a step keeps -----

  lemma {:induction false} LastIsCell(t: List)
    requires Invariant(t) && NumCells(t) > 0
    ensures t[|t| - 1].Cell? && NumAps(t[..|t| - 1]) == NumAps(t)
  {
    ApsArePrefix(t);
  }

  lemma {:induction false} FilteredKeeps(c: Policy, t: List, s': List)
    requires Sound(c) && Invariant(t) && Filtered(c, t, s') && !InLimits(t, c.limits)
    ensures Invariant(s') && |s'| == |t| - 1
    ensures NumAps(s') == NumAps(t) - if NumAps(t) > c.limits.maxApBeacons then 1 else 0
  {
    if NumAps(t) > c.limits.maxApBeacons {
      var v: nat :| v < |t| && IsVictim(ApsOf(t), c.negRssiThreshold, v) && s' == Without(t, v);
      ApsArePrefix(t);
      WithoutKeeps(t, v);
    } else {
      LastIsCell(t);
      PrefixKeeps(t, |t| - 1);
    }
  }

  /** A step keeps the list sorted, free of duplicates and valid; it keeps the fixed capacities under any well-formed
      limits, even if they changed since the last step, and it keeps the limits themselves once they are met. */
  lemma {:induction false} AddStepKeeps(c: Policy, s: List, b: Beacon, s': List)
    requires Sound(c) && Invariant(s) && HasRoom(s) && ValidBeacon(b) && AddStep(c, s, b, s')
    ensures Invariant(s') && HasRoom(s')
    ensures |Merged(s, b)| <= TOTAL_BEACONS + 1
    ensures Fits(s, c.limits) ==> Fits(s', c.limits)
    ensures InLimits(s, c.limits) ==> InLimits(s', c.limits)
  {
    var t := Merged(s, b);
    MergedKeeps(s, b);
    if |t| != |s| && !InLimits(t, c.limits) {
      FilteredKeeps(c, t, s');
    }
  }

  /** Some result always exists: the step never gets stuck. */
  lemma {:induction false} AddStepExists(c: Policy, s: List, b: Beacon) returns (s': List)
    requires Sound(c) && Invariant(s) && ValidBeacon(b)
    ensures AddStep(c, s, b, s')
  {
    var t := Merged(s, b);
    MergedKeeps(s, b);
    s' := t;
    if |t| != |s| && !InLimits(t, c.limits) {
      if NumAps(t) > c.limits.maxApBeacons {
        ApsInOrder(t);
        var v := VictimExists(ApsOf(t), c.negRssiThreshold);
        s' := Without(t, v);
      } else {
        s' := t[..|t| - 1];
      }
    }
  }

  lemma {:induction false} VictimExists(aps: Aps, thr: nat) returns (v: nat)
    requires DistinctMacs(aps) && |aps| > 0
    ensures IsVictim(aps, thr, v)
  {
    if exists l: nat :: Loser(aps, l) {
      v := VirtualVictimExists(aps, |aps|);
    } else if !SameAge(aps) {
      v := OldestExists(aps, |aps|);
      OldestIsOlder(aps, v);
    } else {
      v := WorstIndex(aps, thr);
    }
  }

  lemma {:induction false} OldestIsOlder(aps: Aps, v: nat)
    requires !SameAge(aps) && v < |aps| && forall k | 0 <= k < |aps| :: aps[k].h.age <= aps[v].h.age
    ensures exists k :: 0 <= k < |aps| && aps[k].h.age < aps[v].h.age
  {
    var i, j :| 0 <= i < |aps| && 0 <= j < |aps| && aps[i].h.age != aps[j].h.age;
    assert aps[i].h.age < aps[v].h.age || aps[j].h.age < aps[v].h.age;
  }

  /** The loser that outranks all losers among the first n entries. */
  lemma {:induction false} VirtualVictimExists(aps: Aps, n: nat) returns (v: nat)
    requires DistinctMacs(aps) && n <= |aps| && exists l: nat :: l < n && Loser(aps, l)
    ensures v < n && Loser(aps, v)
    ensures forall l: nat | l < n && Loser(aps, l) && l != v :: Outranks(aps[v], aps[l])
  {
    var m := n - 1;
    if exists l: nat :: l < m && Loser(aps, l) {
      v := VirtualVictimExists(aps, m);
      if Loser(aps, m) {
        OutranksTotal(aps, v, m);
        if Outranks(aps[m], aps[v]) {
          forall l: nat | l < m && Loser(aps, l) ensures Outranks(aps[m], aps[l]) {
            OutranksTransitive(aps[m], aps[v], aps[l]);
          }
          v := m;
        }
      }
    } else {
      v := m;
    }
  }

  lemma {:induction false} OutranksTotal(aps: Aps, i: nat, j: nat)
    requires DistinctMacs(aps) && i < j < |aps|
    ensures Outranks(aps[i], aps[j]) || Outranks(aps[j], aps[i])
  {
    if Macs.MacNumber(aps[i].ap.mac) == Macs.MacNumber(aps[j].ap.mac) {
      Macs.MacNumberInjective(aps[i].ap.mac, aps[j].ap.mac);
    }
  }

  lemma {:induction false} OldestExists(aps: Aps, n: nat) returns (v: nat)
    requires 0 < n <= |aps|
    ensures v < n && (forall k | 0 <= k < n :: aps[k].h.age <= aps[v].h.age)
    ensures forall k | 0 <= k < v :: aps[k].h.age < aps[v].h.age
  {
    if n == 1 {
      v := 0;
    } else {
      v := OldestExists(aps, n - 1);
      if aps[n - 1].h.age > aps[v].h.age {
        v := n - 1;
      }
    }
  }

  /** And one only. */
  lemma {:induction false} AddStepIsDetermined(c: Policy, s: List, b: Beacon, s': List, s'': List)
    requires Sound(c) && Invariant(s) && ValidBeacon(b) && AddStep(c, s, b, s') && AddStep(c, s, b, s'')
    ensures s' == s''
  {
    var t := Merged(s, b);
    MergedKeeps(s, b);
    if |t| != |s| && !InLimits(t, c.limits) && NumAps(t) > c.limits.maxApBeacons {
      var v: nat :| v < |t| && IsVictim(ApsOf(t), c.negRssiThreshold, v) && s' == Without(t, v);
      var w: nat :| w < |t| && IsVictim(ApsOf(t), c.negRssiThreshold, w) && s'' == Without(t, w);
      ApsInOrder(t);
      VictimIsUnique(ApsOf(t), c.negRssiThreshold, v, w);
    }
  }

  // ----- a connected access point that goes -----

  lemma {:induction false} WeakPairMerged(t: List)
    requires t == [STRONG_AP, WEAK_AP]
    ensures Merged([WEAK_AP], STRONG_AP) == t && NumAps(t) == 2 && Invariant(t) && ApsOf(t) == t
    ensures Invariant([WEAK_AP]) && ValidBeacon(STRONG_AP)
  {
    assert STRONG_AP.ap.mac[0] == 4 && WEAK_AP.ap.mac[0] == 8;
    assert ValidBeacon(STRONG_AP) && ValidBeacon(WEAK_AP) && Invariant([WEAK_AP]);
    assert Merged([WEAK_AP], STRONG_AP) == t;
    MergedKeeps([WEAK_AP], STRONG_AP);
    SingleAp();
    ApsOfPrefix(t);
  }

  lemma {:induction false} SingleAp()
    ensures NumAps([WEAK_AP]) == 1
  {
    CountOne(IsAp, [], WEAK_AP);
    assert [] + [WEAK_AP] == [WEAK_AP];
  }

  lemma {:induction false} WeakOneIsVictim(aps: Aps)
    requires aps == [STRONG_AP, WEAK_AP]
    ensures IsVictim(aps, 90, 1)
  {
    WeakPairWorst(aps);
    forall l: nat ensures !Loser(aps, l) {
      WeakPairNoLoser(aps, l);
    }
    assert SameAge(aps);
  }

  lemma {:induction false} WeakOneGoes(c: Policy, t: List)
    requires c == Policy(Limits(2, 1), 90) && t == [STRONG_AP, WEAK_AP]
    ensures Filtered(c, t, [STRONG_AP]) && !InLimits(t, c.limits)
  {
    WeakPairMerged(t);
    WeakOneIsVictim(t);
    assert Without(t, 1) == [STRONG_AP];
  }

  /** Adding an unconnected access point can drop the connected one, the only other: it is weak, and the ages agree. */
  lemma {:induction false} ConnectedCanGo()
    ensures exists c: Policy, s: List, b: Beacon, s': List ::
              && Sound(c) && Invariant(s) && ValidBeacon(b) && InLimits(s, c.limits) && AddStep(c, s, b, s')
              && s == [WEAK_AP] && WEAK_AP.h.connected && b == STRONG_AP && !b.h.connected && s' == [b]
  {
    var c, t := Policy(Limits(2, 1), 90), [STRONG_AP, WEAK_AP];
    WeakPairMerged(t);
    SingleAp();
    WeakOneGoes(c, t);
    assert AddStep(c, [WEAK_AP], STRONG_AP, [STRONG_AP]);
  }
}
