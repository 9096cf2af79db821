/** The list operations on a request context: libel/beacons.c and the remove_worst of the two plugins. */
module Requests {
  import opened Beacons
  import opened SeqFacts
  import opened RequestList
  import opened ApEviction
  import opened Filtering
  import opened Auth
  import opened Contexts

  /** The outcome of adding a beacon. */
  datatype Status = Added | NeverOpen | BadParameters | BadTime | Internal

  lemma {:induction false} CountersAfterRemoval(s: List, index: nat)
    requires index < |s|
    ensures NumAps(Without(s, index)) == NumAps(s) - if s[index].Ap? then 1 else 0
  {
    CountWithout(IsAp, s, index);
  }

  /** remove_beacon: the counters shrink and the later beacons move up. */
  method RemoveBeacon(rctx: RequestContext, index: nat) returns (ok: bool)
    requires rctx.Valid()
    modifies rctx`numBeacons, rctx`numAp, rctx.beacon
    ensures rctx.Valid()
    ensures ok == (index < |old(rctx.Contents())|)
    ensures rctx.Contents() == if ok then Without(old(rctx.Contents()), index) else old(rctx.Contents())
  {
    if index >= rctx.numBeacons {
      return false;
    }
    ghost var was, n := rctx.Contents(), rctx.numBeacons;
    CountersAfterRemoval(was, index);
    if rctx.beacon[index].Ap? {
      rctx.numAp := rctx.numAp - 1;
    }
    forall j | index <= j < rctx.numBeacons - 1 {
      rctx.beacon[j] := rctx.beacon[j + 1];
    }
    rctx.numBeacons := rctx.numBeacons - 1;
    assert rctx.beacon[..rctx.numBeacons] == Without(was, index);
    return true;
  }

  /** The search of insert_beacon for an equal beacon. */
  method SearchDuplicate(rctx: RequestContext, b: Beacon) returns (j: nat)
    requires rctx.Valid()
    ensures j == FindDuplicate(rctx.Contents(), b)
  {
    j := 0;
    while j < rctx.numBeacons
      invariant j <= FindDuplicate(rctx.Contents(), b)
    {
      assert rctx.Contents()[j] == rctx.beacon[j];
      if Equal(b, rctx.beacon[j]) {
        break;
      }
      j := j + 1;
    }
  }

  /** The search of insert_beacon for the place to insert. */
  method SearchPosition(rctx: RequestContext, b: Beacon) returns (j: nat)
    requires rctx.Valid()
    ensures j == Position(rctx.Contents(), b)
  {
    j := 0;
    while j < rctx.numBeacons
      invariant j <= Position(rctx.Contents(), b)
    {
      assert rctx.Contents()[j] == rctx.beacon[j];
      if GoesFirst(b, rctx.beacon[j]) {
        break;
      }
      j := j + 1;
    }
  }

  /** Shift the beacons from j on and put b there. */
  method InsertAt(rctx: RequestContext, j: nat, b: Beacon)
    requires rctx.Valid() && j <= rctx.numBeacons <= TOTAL_BEACONS
    modifies rctx`numBeacons, rctx`numAp, rctx.beacon
    ensures rctx.Valid() && rctx.Contents() == InsertedAt(old(rctx.Contents()), j, b)
  {
    ghost var was := rctx.Contents();
    CountInserted(IsAp, was, j, b);
    forall k | j <= k < rctx.numBeacons {
      rctx.beacon[k + 1] := rctx.beacon[k];
    }
    rctx.beacon[j] := b;
    rctx.numBeacons := rctx.numBeacons + 1;
    assert rctx.beacon[..rctx.numBeacons] == InsertedAt(was, j, b);
    if b.Ap? {
      rctx.numAp := rctx.numAp + 1;
    }
  }

  /** insert_beacon: refuse types without a plugin, settle duplicates, insert in order. */
  method InsertBeacon(rctx: RequestContext, b: Beacon) returns (ok: bool)
    requires rctx.Valid() && rctx.numBeacons <= TOTAL_BEACONS
    modifies rctx`numBeacons, rctx`numAp, rctx.beacon
    ensures rctx.Valid() && ok == !b.Other?
    ensures rctx.Contents() == if ok then Merged(old(rctx.Contents()), b) else old(rctx.Contents())
  {
    if b.Other? {
      return false;
    }
    var j := SearchDuplicate(rctx, b);
    if j < rctx.numBeacons {
      if !KeepNew(b, rctx.beacon[j]) {
        return true;
      }
      var _ := RemoveBeacon(rctx, j);
    }
    j := SearchPosition(rctx, b);
    InsertAt(rctx, j, b);
    return true;
  }

  /** What the eviction rules may assume of the request. */
  ghost predicate Evictable(rctx: RequestContext)
    reads rctx, rctx.session, rctx.beacon
  {
    rctx.Valid() && Invariant(rctx.Contents()) && Sound(rctx.session.config.policy)
  }

  /** The access points of the request. */
  method ApsIn(rctx: RequestContext) returns (aps: Aps)
    requires rctx.Valid() && Invariant(rctx.Contents())
    ensures aps == ApsOf(rctx.Contents()) && |aps| == rctx.numAp
    ensures DistinctMacs(aps) && StrongestFirst(aps)
  {
    ghost var s := rctx.Contents();
    ApsOfPrefix(s);
    ApsInOrder(s);
    assert forall i | 0 <= i < rctx.numAp :: rctx.beacon[i] == s[i];
    aps := rctx.beacon[..rctx.numAp];
  }

  /** remove_virtual_ap. */
  method RemoveVirtualAp(rctx: RequestContext) returns (removed: bool)
    requires Evictable(rctx)
    modifies rctx`numBeacons, rctx`numAp, rctx.beacon
    ensures rctx.Valid()
    ensures var s := old(rctx.Contents());
            if removed then exists v: nat :: v < |s| && IsVirtualVictim(ApsOf(s), v) && rctx.Contents() == Without(s, v)
            else rctx.Contents() == s
    ensures var s := old(rctx.Contents());
            removed <==> NumAps(s) > rctx.session.config.policy.limits.maxApBeacons && exists l: nat :: Loser(ApsOf(s), l)
  {
    if rctx.numAp <= rctx.session.config.policy.limits.maxApBeacons {
      return false;
    }
    var aps := ApsIn(rctx);
    var worst := FindVirtualVictim(aps);
    if worst.Some? {
      removed := RemoveBeacon(rctx, worst.value);
    } else {
      removed := false;
    }
  }

  /** remove_oldest_ap. */
  method RemoveOldestAp(rctx: RequestContext) returns (removed: bool)
    requires Evictable(rctx) && rctx.numAp > 0
    modifies rctx`numBeacons, rctx`numAp, rctx.beacon
    ensures rctx.Valid()
    ensures var s := old(rctx.Contents());
            && (removed <==> !SameAge(ApsOf(s)))
            && if removed then exists v: nat :: v < |s| && IsOldest(ApsOf(s), v) && rctx.Contents() == Without(s, v)
               else rctx.Contents() == s
  {
    var aps := ApsIn(rctx);
    var oldest := FindOldest(aps);
    if oldest.Some? {
      removed := RemoveBeacon(rctx, oldest.value);
    } else {
      removed := false;
    }
  }

  /** remove_worst of the access-point plugin: it declines if there are not too many access points. The priorities
      are computed first in any case. */
  method RemoveWorstAp(rctx: RequestContext) returns (ok: bool)
    requires Evictable(rctx)
    modifies rctx`numBeacons, rctx`numAp, rctx.beacon
    ensures rctx.Valid()
    ensures ok == (NumAps(old(rctx.Contents())) > rctx.session.config.policy.limits.maxApBeacons)
    ensures if ok then Filtered(rctx.session.config.policy, old(rctx.Contents()), rctx.Contents())
            else rctx.Contents() == old(rctx.Contents())
  {
    var aps := ApsIn(rctx);
    var idxOfWorst := SetPriorities(aps, rctx.session.config.policy.negRssiThreshold);
    if rctx.numAp <= rctx.session.config.policy.limits.maxApBeacons {
      return false;
    }
    ghost var s := rctx.Contents();
    var removed := RemoveVirtualAp(rctx);
    if removed {
      VirtualFiltered(rctx.session.config.policy, s, rctx.Contents());
      return true;
    }
    removed := RemoveOldestAp(rctx);
    if removed {
      OldestFiltered(rctx.session.config.policy, s, rctx.Contents());
      return true;
    }
    ok := RemoveBeacon(rctx, idxOfWorst);
    WorstFiltered(rctx.session.config.policy, s, rctx.Contents());
  }

  lemma {:induction false} VirtualFiltered(c: Policy, s: List, s': List)
    requires Sound(c) && NumAps(s) > c.limits.maxApBeacons
    requires exists v: nat :: v < |s| && IsVirtualVictim(ApsOf(s), v) && s' == Without(s, v)
    ensures Filtered(c, s, s')
  {
    var v: nat :| v < |s| && IsVirtualVictim(ApsOf(s), v) && s' == Without(s, v);
    assert IsVictim(ApsOf(s), c.negRssiThreshold, v);
  }

  lemma {:induction false} OldestFiltered(c: Policy, s: List, s': List)
    requires Sound(c) && NumAps(s) > c.limits.maxApBeacons
    requires !SameAge(ApsOf(s)) && forall l: nat :: !Loser(ApsOf(s), l)
    requires exists v: nat :: v < |s| && IsOldest(ApsOf(s), v) && s' == Without(s, v)
    ensures Filtered(c, s, s')
  {
    var v: nat :| v < |s| && IsOldest(ApsOf(s), v) && s' == Without(s, v);
    assert IsVictim(ApsOf(s), c.negRssiThreshold, v);
  }

  lemma {:induction false} WorstFiltered(c: Policy, s: List, s': List)
    requires Sound(c) && NumAps(s) > c.limits.maxApBeacons
    requires SameAge(ApsOf(s)) && forall l: nat :: !Loser(ApsOf(s), l)
    requires s' == Without(s, WorstIndex(ApsOf(s), c.negRssiThreshold))
    ensures Filtered(c, s, s')
  {
    assert IsVictim(ApsOf(s), c.negRssiThreshold, WorstIndex(ApsOf(s), c.negRssiThreshold));
  }

  /** remove_worst of the cell plugin: drop the last beacon if there are too many cells. */
  method RemoveWorstCell(rctx: RequestContext) returns (ok: bool)
    requires Evictable(rctx)
    modifies rctx`numBeacons, rctx`numAp, rctx.beacon
    ensures rctx.Valid()
    ensures ok == !CellsFit(old(rctx.Contents()), rctx.session.config.policy.limits)
    ensures var s := old(rctx.Contents());
            if ok then |s| > 0 && rctx.Contents() == s[..|s| - 1] else rctx.Contents() == s
  {
    var limits := rctx.session.config.policy.limits;
    if rctx.numBeacons - rctx.numAp <= limits.totalBeacons - limits.maxApBeacons {
      return false;
    }
    ghost var s := rctx.Contents();
    LastIsCell(s);
    assert s[|s| - 1] == rctx.beacon[rctx.numBeacons - 1];
    if rctx.beacon[rctx.numBeacons - 1].Cell? {
      ok := RemoveBeacon(rctx, rctx.numBeacons - 1);
      assert Without(s, |s| - 1) == s[..|s| - 1];
    } else {
      assert false;
    }
  }

  /** sky_plugin_remove_worst: the first plugin that does not decline. */
  method RemoveWorst(rctx: RequestContext) returns (ok: bool)
    requires Evictable(rctx) && !InLimits(rctx.Contents(), rctx.session.config.policy.limits)
    modifies rctx`numBeacons, rctx`numAp, rctx.beacon
    ensures ok && rctx.Valid() && Filtered(rctx.session.config.policy, old(rctx.Contents()), rctx.Contents())
  {
    ok := RemoveWorstAp(rctx);
    if !ok {
      ok := RemoveWorstCell(rctx);
    }
  }

  // ----- what a new beacon learns from the cache -----

  function WithUsed(b: Beacon): Beacon {
    match b
    case Ap(h, ap) => Ap(h, ap.(used := true))
    case _ => b
  }

  /** The line holds an equal access point that is marked used. */
  predicate UsedIn(cl: Cacheline, b: Beacon) {
    var d := FindDuplicate(cl.beacons, b);
    Live(cl) && d < |cl.beacons| && cl.beacons[d].Ap? && cl.beacons[d].ap.used
  }

  predicate FoundIn(cl: Cacheline, b: Beacon) {
    Live(cl) && FindDuplicate(cl.beacons, b) < |cl.beacons|
  }

  /** Marking b used does not change what it equals. */
  lemma {:induction false} UsedIsInvisible(s: List, b: Beacon)
    ensures FindDuplicate(s, WithUsed(b)) == FindDuplicate(s, b)
  {
    if s != [] {
      UsedIsInvisible(s[..|s| - 1], b);
    }
  }

  /** beacon_in_cacheline. */
  method BeaconInCacheline(b: Beacon, cl: Cacheline) returns (found: bool, b': Beacon)
    ensures found == FoundIn(cl, b)
    ensures b' == if UsedIn(cl, b) then WithUsed(b) else b
  {
    b' := b;
    if cl.time == CACHE_EMPTY {
      return false, b;
    }
    for j := 0 to |cl.beacons|
      invariant b' == b && j <= FindDuplicate(cl.beacons, b)
    {
      if Equal(b, cl.beacons[j]) {
        if cl.beacons[j].Ap? && cl.beacons[j].ap.used {
          b' := WithUsed(b);
        }
        return true, b';
      }
    }
    return false, b;
  }

  ghost predicate UsedSomewhere(lines: seq<Cacheline>, b: Beacon) {
    exists i :: 0 <= i < |lines| && UsedIn(lines[i], b)
  }

  ghost function Recalled(lines: seq<Cacheline>, b: Beacon): Beacon {
    if UsedSomewhere(lines, b) then WithUsed(b) else b
  }

  /** beacon_in_cache: the scan stops at the first line that marks the beacon used. */
  method BeaconInCache(session: SessionContext, b: Beacon) returns (b': Beacon)
    requires b.Ap?
    ensures b' == Recalled(session.cacheline[..], b)
  {
    b' := b;
    var i := 0;
    ghost var lines := session.cacheline[..];
    while i < session.cacheline.Length
      invariant 0 <= i <= |lines|
      invariant b' == b
      invariant forall k | 0 <= k < i :: !UsedIn(lines[k], b)
    {
      assert lines[i] == session.cacheline[i];
      var found, marked := BeaconInCacheline(b', session.cacheline[i]);
      b' := marked;
      if found && b'.ap.used {
        if !UsedIn(lines[i], b) {
          AlreadyUsed(lines, b);
        }
        break;
      }
      i := i + 1;
    }
  }

  lemma {:induction false} AlreadyUsed(lines: seq<Cacheline>, b: Beacon)
    requires b.Ap? && b.ap.used
    ensures Recalled(lines, b) == b
  {}

  // ----- add_beacon -----

  function WithAge(b: Beacon, age: Uint32): Beacon {
    match b
    case Ap(h, ap) => Ap(h.(age := age), ap)
    case Cell(h, cell) => Cell(h.(age := age), cell)
    case Other(h) => Other(h.(age := age))
  }

  datatype Prepared = Accept(beacon: Beacon) | Reject(status: Status)

  /** The checks of add_beacon: an open session, a possible beacon, a scan time since March 2019 that is not after
      the request. Unknown times (0) give age 0. */
  function Prepare(open: bool, time: Uint32, b: Beacon, timestamp: int): Prepared
    requires time < TIMESTAMP_2019_03_01 + 0x8000_0000
  {
    if !open then Reject(NeverOpen) else
      match Validate(b)
      case None => Reject(BadParameters)
      case Some(v) =>
        if timestamp != TIME_UNAVAILABLE && timestamp < TIMESTAMP_2019_03_01 then Reject(BadTime)
        else if time == TIME_UNAVAILABLE || timestamp == TIME_UNAVAILABLE then Accept(WithAge(v, 0))
        else if time - timestamp >= 0 then Accept(WithAge(v, time - timestamp))
        else Reject(BadParameters)
  }

  lemma {:induction false} PreparedIsValid(open: bool, time: Uint32, b: Beacon, timestamp: int, lines: seq<Cacheline>)
    requires time < TIMESTAMP_2019_03_01 + 0x8000_0000
    requires Prepare(open, time, b, timestamp).Accept?
    ensures var a := Prepare(open, time, b, timestamp).beacon; ValidBeacon(a) && ValidBeacon(Recalled(lines, a))
  {
    ValidateIdempotent(b);
  }

  /** Which beacons get in, why the others do not, and with what age: that of the scan time by the request's clock, if
      both are known, and 0 otherwise. */
  lemma {:induction false} PreparedMeaning(time: Uint32, b: Beacon, timestamp: int)
    requires time < TIMESTAMP_2019_03_01 + 0x8000_0000
    ensures Prepare(false, time, b, timestamp) == Reject(NeverOpen)
    ensures var p := Prepare(true, time, b, timestamp);
            && (p == Reject(BadTime) <==> Validate(b).Some? && timestamp != 0 && timestamp < 1551398400)
            && (p == Reject(BadParameters) <==>
                Validate(b).None? || (timestamp >= 1551398400 && time != 0 && timestamp > time))
            && (p.Accept? ==>
                  && p.beacon.h.age == (if time == 0 || timestamp == 0 then 0 else time - timestamp)
                  && WithAge(p.beacon, b.h.age) == Validate(b).value)
            && (p.Reject? ==> p.status == BadTime || p.status == BadParameters)
  {
    if Validate(b).Some? {
      ValidateIdempotent(b);
    }
  }

  /** What a new access point learns from the stored scans: it counts as used if it did or if a live line holds the same
      address as used, and nothing else changes. */
  lemma {:induction false} RecalledMeaning(lines: seq<Cacheline>, b: Beacon)
    requires b.Ap? && forall i | 0 <= i < |lines| :: Invariant(lines[i].beacons)
    ensures Recalled(lines, b).Ap? && Recalled(lines, b).h == b.h
    ensures Recalled(lines, b).ap.mac == b.ap.mac && Recalled(lines, b).ap.freq == b.ap.freq
    ensures Recalled(lines, b).ap.used <==>
            b.ap.used || exists i, x :: 0 <= i < |lines| && lines[i].time != 0 && x in lines[i].beacons
                                        && x.Ap? && x.ap.mac == b.ap.mac && x.ap.used
  {
    if i, x :| 0 <= i < |lines| && lines[i].time != 0 && x in lines[i].beacons && x.Ap? && x.ap.mac == b.ap.mac
               && x.ap.used
    {
      SameAddressIsDuplicate(lines[i].beacons, b, x);
      assert UsedIn(lines[i], b);
    }
    if UsedSomewhere(lines, b) {
      var i :| 0 <= i < |lines| && UsedIn(lines[i], b);
      var x := lines[i].beacons[FindDuplicate(lines[i].beacons, b)];
      assert x in lines[i].beacons && x.ap.mac == b.ap.mac;
    }
  }

  lemma {:induction false} SameAddressIsDuplicate(s: List, b: Beacon, x: Beacon)
    requires Invariant(s) && b.Ap? && x.Ap? && x in s && x.ap.mac == b.ap.mac
    ensures FindDuplicate(s, b) < |s| && s[FindDuplicate(s, b)] == x
  {
    var k :| 0 <= k < |s| && s[k] == x;
    SameEntry(s, b, FindDuplicate(s, b), k);
  }

  /** add_beacon: reject, or take one filtering step. It never fails internally, and never needs more than the one
      overflow slot. */
  method AddBeacon(rctx: RequestContext, b: Beacon, timestamp: int) returns (status: Status)
    requires Evictable(rctx) && HasRoom(rctx.Contents())
    requires rctx.time < TIMESTAMP_2019_03_01 + 0x8000_0000
    modifies rctx`numBeacons, rctx`numAp, rctx.beacon
    ensures Evictable(rctx) && HasRoom(rctx.Contents())
    ensures match Prepare(rctx.session.openFlag, rctx.time, b, timestamp)
            case Reject(why) => status == why && rctx.Contents() == old(rctx.Contents())
            case Accept(a) =>
              && status == Added
              && AddStep(rctx.session.config.policy, old(rctx.Contents()), Recalled(rctx.session.cacheline[..], a),
                         rctx.Contents())
  {
    var prepared := Prepare(rctx.session.openFlag, rctx.time, b, timestamp);
    if prepared.Reject? {
      return prepared.status;
    }
    PreparedIsValid(rctx.session.openFlag, rctx.time, b, timestamp, rctx.session.cacheline[..]);
    var a := prepared.beacon;
    if a.Ap? {
      a := BeaconInCache(rctx.session, a);
    }
    status := AddPrepared(rctx, a);
  }

  /** The insertion and the filtering. */
  method AddPrepared(rctx: RequestContext, a: Beacon) returns (status: Status)
    requires Evictable(rctx) && HasRoom(rctx.Contents()) && ValidBeacon(a)
    modifies rctx`numBeacons, rctx`numAp, rctx.beacon
    ensures Evictable(rctx) && HasRoom(rctx.Contents()) && status == Added
    ensures AddStep(rctx.session.config.policy, old(rctx.Contents()), a, rctx.Contents())
  {
    var n, limits := rctx.numBeacons, rctx.session.config.policy.limits;
    ghost var s := rctx.Contents();
    MergedKeeps(s, a);
    var inserted := InsertBeacon(rctx, a);
    if !inserted {
      return Internal;
    }
    status := Added;
    if n != rctx.numBeacons
       && (rctx.numAp > limits.maxApBeacons || rctx.numBeacons - rctx.numAp > limits.totalBeacons - limits.maxApBeacons)
    {
      var ok := RemoveWorst(rctx);
      if !ok {
        return Internal;
      }
    }
    AddStepKeeps(rctx.session.config.policy, s, a, rctx.Contents());
  }

  // ----- the sanity check every call starts with -----

  /** What validate_beacon leaves of a beacon it accepts. */
  function Cleaned(b: Beacon): Beacon {
    match Validate(b)
    case None => b
    case Some(v) => v
  }

  lemma {:induction false} CleanedKeepsClass(b: Beacon)
    ensures Cleaned(b).Ap? == b.Ap?
  {
    if Validate(b).Some? {
      ValidateIdempotent(b);
    }
  }

  /** The first entry validation refuses, |s| if there is none. */
  function FirstBad(s: List): (k: nat)
    ensures k <= |s|
    ensures k < |s| ==> Validate(s[k]).None?
    ensures forall i | 0 <= i < k :: Validate(s[i]).Some?
    decreases |s|
  {
    if s == [] then 0 else
      var k := FirstBad(s[..|s| - 1]);
      if k == |s| - 1 && Validate(s[|s| - 1]).Some? then |s| else k
  }

  /** validate_request_ctx, given whether the header's checksum is right. It rewrites what it accepts, up to the first
      bad beacon, and passes a list as the other operations keep it without touching it. */
  method ValidateRequestCtx(rctx: RequestContext, headerOk: bool) returns (ok: bool)
    requires rctx.Valid() && rctx.numBeacons <= TOTAL_BEACONS
    modifies rctx.beacon
    ensures rctx.Valid() && |rctx.Contents()| == |old(rctx.Contents())|
    ensures ok <==> headerOk && NumAps(old(rctx.Contents())) <= MAX_AP_BEACONS + 1
                    && FirstBad(old(rctx.Contents())) == |old(rctx.Contents())|
    ensures ok ==> forall i | 0 <= i < rctx.numBeacons :: rctx.Contents()[i] == Cleaned(old(rctx.Contents())[i])
    ensures AllValid(old(rctx.Contents())) ==> rctx.Contents() == old(rctx.Contents())
    ensures AllValid(old(rctx.Contents())) && HasRoom(old(rctx.Contents())) && headerOk ==> ok
  {
    if rctx.numAp > MAX_AP_BEACONS + 1 || !headerOk {
      return false;
    }
    ghost var was := rctx.Contents();
    var i := 0;
    while i < rctx.numBeacons
      invariant 0 <= i <= rctx.numBeacons && i <= FirstBad(was)
      invariant forall k | 0 <= k < i :: rctx.beacon[k] == Cleaned(was[k])
      invariant forall k | i <= k < rctx.numBeacons :: rctx.beacon[k] == was[k]
    {
      var v := Validate(rctx.beacon[i]);
      if v.None? {
        break;
      }
      rctx.beacon[i] := v.value;
      i := i + 1;
    }
    ok := i == rctx.numBeacons;
    ghost var now := rctx.beacon[..rctx.numBeacons];
    SameClasses(was, now, i);
  }

  lemma {:induction false} SameClasses(was: List, now: List, n: nat)
    requires |was| == |now| && n <= |was|
    requires forall k | 0 <= k < n :: now[k] == Cleaned(was[k])
    requires forall k | n <= k < |was| :: now[k] == was[k]
    ensures NumAps(now) == NumAps(was)
    ensures AllValid(was) ==> now == was && FirstBad(was) == |was|
  {
    forall k | 0 <= k < |was| ensures IsAp(was[k]) == IsAp(now[k]) {
      CleanedKeepsClass(was[k]);
    }
    CountSame(IsAp, was, now);
    if AllValid(was) {
      forall k | 0 <= k < |was| ensures Validate(was[k]).Some? && now[k] == was[k] {
        assert ValidBeacon(was[k]);
      }
    }
  }
}
