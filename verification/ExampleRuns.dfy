/** Two runs of a session, from its opening: one in which a request comes to exceed the limits, and one in which sizing
    calls substitute as often as one likes. */
module ExampleRuns {
  import Macs
  import opened Beacons
  import opened Prelude
  import opened RequestList
  import opened Filtering
  import Auth
  import opened Contexts
  import opened Requests
  import opened ScanCache
  import opened ClientRuns

  // ----- extending runs -----

  ghost predicate EndsIn(worlds: seq<World>, events: seq<Event>, dist: Distance, w: World) {
    IsRun(worlds, events, dist) && worlds[|events|] == w
  }

  /** Some run leads to w. */
  ghost predicate Reached(w: World, dist: Distance) {
    exists worlds, events :: EndsIn(worlds, events, dist, w)
  }

  /** A step depends only on the worlds around it. */
  lemma {:induction false} StepMoved(worlds: seq<World>, events: seq<Event>, i: nat, dist: Distance,
                                     worlds': seq<World>, events': seq<Event>, j: nat)
    requires |worlds| == |events| + 1 && |worlds'| == |events'| + 1 && i < |events| && j < |events'|
    requires worlds'[j] == worlds[i] && worlds'[j + 1] == worlds[i + 1] && events'[j] == events[i]
    requires StepAt(worlds, events, dist, i)
    ensures StepAt(worlds', events', dist, j)
  {}

  lemma {:induction false} OneStep(w: World, e: Event, dist: Distance, w': World)
    requires Ready(w) && Allowed(w, e) && Step(w, e, dist, w')
    ensures StepAt([w, w'], [e], dist, 0)
  {}

  lemma {:induction false} RunExtended(worlds: seq<World>, events: seq<Event>, dist: Distance, e: Event, w': World)
    requires IsRun(worlds, events, dist) && Ready(worlds[|events|]) && Allowed(worlds[|events|], e)
    requires Step(worlds[|events|], e, dist, w')
    ensures EndsIn(worlds + [w'], events + [e], dist, w')
  {
    var n, worlds', events' := |events|, worlds + [w'], events + [e];
    OneStep(worlds[n], e, dist, w');
    StepMoved([worlds[n], w'], [e], 0, dist, worlds', events', n);
    forall i: nat | i < n + 1 ensures StepAt(worlds', events', dist, i) {
      if i < n {
        StepMoved(worlds, events, i, dist, worlds', events', i);
      }
    }
  }

  lemma {:induction false} ReachedNext(w: World, e: Event, dist: Distance, w': World)
    requires Ready(w) && Reached(w, dist) && Allowed(w, e) && Step(w, e, dist, w')
    ensures Ready(w') && Reached(w', dist)
  {
    var worlds, events :| EndsIn(worlds, events, dist, w);
    RunExtended(worlds, events, dist, e, w');
    StepKeepsReady(w, e, dist, w');
  }

  lemma {:induction false} OpenedReached(w: World, dist: Distance)
    requires Opened(w)
    ensures Ready(w) && Reached(w, dist)
  {
    assert EndsIn([w], [], dist, w);
    forall i | 0 <= i < |w.lines| ensures LineOk(w.lines[i]) {
      assert w.lines[i].beacons == [];
    }
  }

  // ----- what the example scans are -----

  function SomeAp(m: Macs.Mac): Beacon {
    Ap(Header(0, -50, false), ApData(m, 0, false))
  }

  const MAC_A: Macs.Mac := [4, 0, 0, 0, 0, 0]
  const MAC_B: Macs.Mac := [8, 0, 0, 0, 0, 0]

  lemma {:induction false} ExampleMacs()
    ensures Macs.MacLess(MAC_A, MAC_B) && !Macs.MacLess(MAC_B, MAC_A) && MAC_A != MAC_B
    ensures ValidBeacon(SomeAp(MAC_A)) && ValidBeacon(SomeAp(MAC_B))
  {
    assert MAC_A[0] == 4 && MAC_B[0] == 8;
  }

  /** Small and Large are the lists after adding the first, and then the second access point. */
  function Small(): List {
    [SomeAp(MAC_A)]
  }

  function Large(): List {
    [SomeAp(MAC_A), SomeAp(MAC_B)]
  }

  lemma {:induction false} MergedFirst()
    ensures Merged([], SomeAp(MAC_A)) == Small() && NumAps(Small()) == 1 && Invariant(Small())
  {
    ExampleMacs();
    MergedKeeps([], SomeAp(MAC_A));
    assert Merged([], SomeAp(MAC_A)) == Small();
  }

  lemma {:induction false} AppendedLast(x: Beacon, y: Beacon)
    requires !Equal(y, x) && !GoesFirst(y, x)
    ensures Merged([x], y) == [x, y]
  {}

  lemma {:induction false} SecondGoesLast()
    ensures !Equal(SomeAp(MAC_B), SomeAp(MAC_A)) && !GoesFirst(SomeAp(MAC_B), SomeAp(MAC_A))
  {
    ExampleMacs();
  }

  lemma {:induction false} MergedSecond()
    ensures Merged(Small(), SomeAp(MAC_B)) == Large() && NumAps(Large()) == 2 && Invariant(Large())
  {
    ExampleMacs();
    SecondGoesLast();
    AppendedLast(SomeAp(MAC_A), SomeAp(MAC_B));
    MergedFirst();
    MergedKeeps(Small(), SomeAp(MAC_B));
  }

  predicate NoneLive(lines: seq<Cacheline>) {
    forall i | 0 <= i < |lines| :: !Live(lines[i])
  }

  /** Adding a new access point within the limits, while no line is live. */
  lemma {:induction false} AddedWithin(w: World, m: Macs.Mac, t: List)
    requires Ready(w) && w.request.Some? && m in {MAC_A, MAC_B}
    requires NoneLive(w.lines)
    requires t == Merged(w.request.value.beacons, SomeAp(m)) && InLimits(t, w.config.policy.limits)
    ensures AddedTo(w, SomeAp(m), Auth.TIME_UNAVAILABLE, w.(request := Some(w.request.value.(beacons := t))))
  {
    ExampleMacs();
    assert Prepare(true, w.request.value.time, SomeAp(m), Auth.TIME_UNAVAILABLE) == Accept(SomeAp(m));
    assert !UsedSomewhere(w.lines, SomeAp(m));
  }

  function WithBeacons(w: World, t: List): World
    requires w.request.Some?
  {
    w.(request := Some(w.request.value.(beacons := t)))
  }

  lemma {:induction false} ReachedAdding(w: World, m: Macs.Mac, t: List, dist: Distance)
    requires Ready(w) && Reached(w, dist) && w.request.Some? && m in {MAC_A, MAC_B}
    requires NoneLive(w.lines)
    requires t == Merged(w.request.value.beacons, SomeAp(m)) && InLimits(t, w.config.policy.limits)
    ensures Ready(WithBeacons(w, t)) && Reached(WithBeacons(w, t), dist)
  {
    AddedWithin(w, m, t);
    ReachedNext(w, Add(SomeAp(m), Auth.TIME_UNAVAILABLE), dist, WithBeacons(w, t));
  }

  const NOW: Uint32 := Auth.TIMESTAMP_2019_03_01 + 1

  function HereAt(): Location {
    Location(Auth.Success, NOW, 0.0, 0.0, 0)
  }

  /** The settings of a fresh session (libel/config.h), and those after a server has lowered the limits. */
  const DEFAULTS: Config := Config(Policy(Limits(28, 20), 90), 50, 5, 24)
  const LOWERED: Config := Config(Policy(Limits(2, 1), 90), 50, 5, 24)

  function Stored(s: List): Cacheline {
    Cacheline(NOW, s, None, HereAt())
  }

  /** A line that holds no scan, or one that has been emptied. */
  function Emptied(s: List): Cacheline {
    Cacheline(CACHE_EMPTY, s, None, HereAt())
  }

  lemma {:induction false} NoneLiveYet(s: List)
    ensures NoneLive([Emptied(s)]) && NoneLive([Emptied(s), Emptied([])])
  {}

  function Fresh(s: List): Ongoing {
    Ongoing(s, None, NOW, false, -1, -1)
  }

  // ----- a request that comes to exceed the limits -----

  function TwoLines(config: Config, line0: Cacheline, line1: Cacheline, r: Ongoing): World {
    World(config, [line0, line1], 0, Some(r))
  }

  lemma {:induction false} FirstStart(dist: Distance)
    ensures Ready(TwoLines(DEFAULTS, Emptied([]), Emptied([]), Fresh([])))
    ensures Reached(TwoLines(DEFAULTS, Emptied([]), Emptied([]), Fresh([])), dist)
  {
    var e := Emptied([]);
    var w0 := World(DEFAULTS, [e, e], 0, None);
    OpenedReached(w0, dist);
    assert RefreshedAll(w0.config, NOW, w0.lines) == [e, e];
    ReachedNext(w0, Event.Start(NOW), dist, TwoLines(DEFAULTS, e, e, Fresh([])));
  }

  lemma {:induction false} FirstAdded(dist: Distance)
    ensures Ready(TwoLines(DEFAULTS, Emptied([]), Emptied([]), Fresh(Small())))
    ensures Reached(TwoLines(DEFAULTS, Emptied([]), Emptied([]), Fresh(Small())), dist)
  {
    var e := Emptied([]);
    var w1 := TwoLines(DEFAULTS, e, e, Fresh([]));
    FirstStart(dist);
    MergedFirst();
    NoneLiveYet([]);
    ReachedAdding(w1, MAC_A, Small(), dist);
    assert WithBeacons(w1, Small()) == TwoLines(DEFAULTS, e, e, Fresh(Small()));
  }

  /** Two access points are added under the default limits. */
  lemma {:induction false} LargeReached(dist: Distance)
    ensures Ready(TwoLines(DEFAULTS, Emptied([]), Emptied([]), Fresh(Large())))
    ensures Reached(TwoLines(DEFAULTS, Emptied([]), Emptied([]), Fresh(Large())), dist)
  {
    var e := Emptied([]);
    var w2 := TwoLines(DEFAULTS, e, e, Fresh(Small()));
    FirstAdded(dist);
    MergedSecond();
    NoneLiveYet([]);
    ReachedAdding(w2, MAC_B, Large(), dist);
    assert WithBeacons(w2, Large()) == TwoLines(DEFAULTS, e, e, Fresh(Large()));
  }

  /** The response stores them in line 0 and lowers the limit of access points to one. */
  lemma {:induction false} LargeStored(dist: Distance)
    ensures Ready(TwoLines(LOWERED, Stored(Large()), Emptied([]), Fresh(Large())))
    ensures Reached(TwoLines(LOWERED, Stored(Large()), Emptied([]), Fresh(Large())), dist)
  {
    var e := Emptied([]);
    var w3, w4 := TwoLines(DEFAULTS, e, e, Fresh(Large())), TwoLines(LOWERED, Stored(Large()), e, Fresh(Large()));
    LargeReached(dist);
    StoredAs(w3, 0, LOWERED, w4);
    ReachedNext(w3, Event.Receive(LOWERED, [], Some(HereAt())), dist, w4);
  }

  /** A response with a location stores the scan in the line that is due. */
  lemma {:induction false} StoredAs(w: World, at: nat, config: Config, w': World)
    requires Ready(w) && w.request.Some? && !w.request.value.hit && w.request.value.gnss == None && at < |w.lines|
    requires StoredAt(w.lines, w.request.value.saveTo, w.request.value.time, at)
    requires w' == World(config, w.lines[at := Stored(w.request.value.beacons)], 0, w.request)
    ensures ReceivedTo(w, config, [], Some(HereAt()), w')
  {
    assert WithUsedFlags(w.request.value.beacons, []) == w.request.value.beacons;
  }

  lemma {:induction false} LargeEmptied()
    ensures RefreshedAll(LOWERED, NOW, [Stored(Large()), Emptied([])]) == [Emptied(Large()), Emptied([])]
  {}

  /** The next start empties line 0, which keeps its beacons. */
  lemma {:induction false} StartedAgain(dist: Distance)
    ensures Ready(TwoLines(LOWERED, Emptied(Large()), Emptied([]), Fresh([])))
    ensures Reached(TwoLines(LOWERED, Emptied(Large()), Emptied([]), Fresh([])), dist)
  {
    var l, e := Emptied(Large()), Emptied([]);
    var w4 := TwoLines(LOWERED, Stored(Large()), e, Fresh(Large()));
    LargeStored(dist);
    LargeEmptied();
    ReachedNext(w4, Event.Start(NOW), dist, TwoLines(LOWERED, l, e, Fresh([])));
  }

  /** The request after the first search, with the findings as given. */
  function Found(hit: bool, getFrom: int, saveTo: int): Ongoing {
    Ongoing(Small(), None, NOW, hit, getFrom, saveTo)
  }

  /** One access point is added. */
  lemma {:induction false} SmallAdded(dist: Distance)
    ensures Ready(TwoLines(LOWERED, Emptied(Large()), Emptied([]), Fresh(Small())))
    ensures Reached(TwoLines(LOWERED, Emptied(Large()), Emptied([]), Fresh(Small())), dist)
  {
    var l, e := Emptied(Large()), Emptied([]);
    var w5 := TwoLines(LOWERED, l, e, Fresh([]));
    StartedAgain(dist);
    MergedFirst();
    NoneLiveYet(Large());
    ReachedAdding(w5, MAC_A, Small(), dist);
    assert WithBeacons(w5, Small()) == TwoLines(LOWERED, l, e, Fresh(Small()));
  }

  lemma {:induction false} ReachedMissing(w: World, dist: Distance)
    requires Ready(w) && Reached(w, dist) && w.request.Some? && !w.request.value.hit && w.request.value.time == NOW
    requires NumAps(w.request.value.beacons) > 0 && w.cacheHits == 0
    requires |w.lines| == 2 && !Live(w.lines[0]) && !Live(w.lines[1])
    ensures var w' := w.(request := Some(w.request.value.(getFrom := 0, saveTo := 1)));
            Ready(w') && Reached(w', dist)
  {
    var w' := w.(request := Some(w.request.value.(getFrom := 0, saveTo := 1)));
    SecondUpToDate(w.lines);
    NothingMatched(QueryOf(w), w.lines, dist, w.request.value.hit);
    SearchedAs(w, dist, w.request.value.hit, 0, 1);
    ReachedNext(w, Search, dist, w');
  }

  /** It is searched for in vain. */
  lemma {:induction false} SmallReached(dist: Distance)
    ensures Ready(TwoLines(LOWERED, Emptied(Large()), Emptied([]), Found(false, 0, 1)))
    ensures Reached(TwoLines(LOWERED, Emptied(Large()), Emptied([]), Found(false, 0, 1)), dist)
  {
    SmallAdded(dist);
    MergedFirst();
    ReachedMissing(TwoLines(LOWERED, Emptied(Large()), Emptied([]), Fresh(Small())), dist);
  }

  /** It is stored in line 1. */
  lemma {:induction false} SmallStored(dist: Distance)
    ensures Ready(TwoLines(LOWERED, Emptied(Large()), Stored(Small()), Found(false, 0, 1)))
    ensures Reached(TwoLines(LOWERED, Emptied(Large()), Stored(Small()), Found(false, 0, 1)), dist)
  {
    var l, r := Emptied(Large()), Found(false, 0, 1);
    var w7, w8 := TwoLines(LOWERED, l, Emptied([]), r), TwoLines(LOWERED, l, Stored(Small()), r);
    SmallReached(dist);
    StoredAs(w7, 1, LOWERED, w8);
    ReachedNext(w7, Event.Receive(LOWERED, [], Some(HereAt())), dist, w8);
  }

  predicate UpToDate(lines: seq<Cacheline>) {
    forall i | 0 <= i < |lines| && Live(lines[i]) :: lines[i].time == NOW
  }

  lemma {:induction false} SecondUpToDate(lines: seq<Cacheline>)
    requires |lines| == 2 && !Live(lines[0]) && (Live(lines[1]) ==> lines[1].time == NOW)
    ensures UpToDate(lines)
  {}

  /** A search of lines that are up to date. */
  lemma {:induction false} SearchedAs(w: World, dist: Distance, hit: bool, getFrom: int, saveTo: int)
    requires w.request.Some? && w.request.value.time == NOW && NumAps(w.request.value.beacons) > 0
    requires UpToDate(w.lines)
    requires MatchedByAps(QueryOf(w), w.lines, dist, w.request.value.hit, hit, getFrom, saveTo)
    requires hit || w.cacheHits == 0
    ensures SearchedTo(w, dist, w.(request := Some(w.request.value.(hit := hit, getFrom := getFrom, saveTo := saveTo))))
  {
    assert forall i | 0 <= i < |w.lines| :: !Expired(QueryOf(w), w.lines[i]);
    assert SweptAll(QueryOf(w), w.lines) == w.lines;
  }

  /** Two empty lines. */
  lemma {:induction false} NothingMatched(q: Query, lines: seq<Cacheline>, dist: Distance, wasHit: bool)
    requires |lines| == 2 && !Live(lines[0]) && !Live(lines[1])
    ensures MatchedByAps(q, lines, dist, wasHit, wasHit, 0, 1)
  {
    EmptyLinesMiss(q, lines, dist);
  }

  lemma {:induction false} FirstIsFree(q: Query, lines: seq<Cacheline>, dist: Distance)
    requires |lines| == 2 && !Live(lines[0]) && Live(lines[1])
    ensures IsBestPut(q, lines, dist, 0)
  {
    assert IsLastEmpty(lines, 2, 0);
  }

  /** Line 1 holds the scan itself. */
  lemma {:induction false} CopyMatched(q: Query, lines: seq<Cacheline>, dist: Distance, wasHit: bool)
    requires Invariant(q.beacons) && NumAps(q.beacons) > 0 && q.gnss == None && q.config.matchAllThreshold < 100
    requires |lines| == 2 && !Live(lines[0]) && lines[1] == Stored(q.beacons)
    ensures MatchedByAps(q, lines, dist, wasHit, true, 1, 0)
  {
    OwnCopyAnswers(q, lines[1], dist);
    assert HasAnswer(q, lines, dist);
    FirstIsFree(q, lines, dist);
    CopyIsBest(Marks(q, lines, dist));
  }

  lemma {:induction false} CopyFound(w: World, dist: Distance)
    requires Ready(w) && w.request.Some? && !w.request.value.hit && w.request.value.time == NOW
    requires NumAps(w.request.value.beacons) > 0 && w.request.value.gnss == None && w.config.matchAllThreshold < 100
    requires |w.lines| == 2 && !Live(w.lines[0]) && w.lines[1] == Stored(w.request.value.beacons)
    ensures SearchedTo(w, dist, w.(request := Some(w.request.value.(hit := true, getFrom := 1, saveTo := 0))))
  {
    SecondUpToDate(w.lines);
    CopyMatched(QueryOf(w), w.lines, dist, w.request.value.hit);
    SearchedAs(w, dist, true, 1, 0);
  }

  lemma {:induction false} ReachedFinding(w: World, dist: Distance)
    requires Ready(w) && Reached(w, dist)
    requires w.request.Some? && !w.request.value.hit && w.request.value.time == NOW
    requires NumAps(w.request.value.beacons) > 0 && w.request.value.gnss == None && w.config.matchAllThreshold < 100
    requires |w.lines| == 2 && !Live(w.lines[0]) && w.lines[1] == Stored(w.request.value.beacons)
    ensures var w' := w.(request := Some(w.request.value.(hit := true, getFrom := 1, saveTo := 0)));
            Ready(w') && Reached(w', dist)
  {
    CopyFound(w, dist);
    ReachedNext(w, Search, dist, w.(request := Some(w.request.value.(hit := true, getFrom := 1, saveTo := 0))));
  }

  lemma {:induction false} CopyIsBest(m: seq<Mark>)
    requires |m| == 2 && !m[0].eligible && m[1] == Mark(true, 1.0)
    ensures IsBest(m, 2, 1)
  {}

  /** Line 1 has no position, and the request has one by now. */
  lemma {:induction false} FlagStays(q: Query, lines: seq<Cacheline>, dist: Distance, wasHit: bool)
    requires q.gnss.Some? && |lines| == 2 && !Live(lines[0]) && Live(lines[1]) && lines[1].gnss == None
    ensures MatchedByAps(q, lines, dist, wasHit, wasHit, 0, 0)
  {
    FirstIsFree(q, lines, dist);
    RuledOut(q, lines, dist);
  }

  lemma {:induction false} RuledOut(q: Query, lines: seq<Cacheline>, dist: Distance)
    requires forall i | 0 <= i < |lines| :: Live(lines[i]) ==> CachedGnssWorse(q.gnss, lines[i].gnss, dist)
    ensures !HasAnswer(q, lines, dist)
  {}

  const HERE: Option<Gnss> := Some(Gnss(0.0, 0.0, 10))

  /** A search hits line 1. */
  lemma {:induction false} HitReached(dist: Distance)
    ensures Ready(TwoLines(LOWERED, Emptied(Large()), Stored(Small()), Found(true, 1, 0)))
    ensures Reached(TwoLines(LOWERED, Emptied(Large()), Stored(Small()), Found(true, 1, 0)), dist)
  {
    var l, s := Emptied(Large()), Stored(Small());
    var w8 := TwoLines(LOWERED, l, s, Found(false, 0, 1));
    SmallStored(dist);
    MergedFirst();
    ReachedFinding(w8, dist);
  }

  /** The request with its hit, after a position is set. */
  function BeforeSearch(): World {
    TwoLines(LOWERED, Emptied(Large()), Stored(Small()), Found(true, 1, 0).(gnss := HERE))
  }

  /** The second search misses, and the flag stays. */
  function AfterSearch(): World {
    TwoLines(LOWERED, Emptied(Large()), Stored(Small()), Found(true, 0, 0).(gnss := HERE))
  }

  lemma {:induction false} PositionReached(dist: Distance)
    ensures Ready(BeforeSearch()) && Reached(BeforeSearch(), dist)
  {
    HitReached(dist);
    ReachedNext(TwoLines(LOWERED, Emptied(Large()), Stored(Small()), Found(true, 1, 0)), Position(HERE), dist, BeforeSearch());
  }

  lemma {:induction false} SecondFresh(config: Config, lines: seq<Cacheline>)
    requires |lines| == 2 && !Live(lines[0]) && lines[1].time == NOW && Fits(lines[1].beacons, config.policy.limits)
    ensures forall i | 0 <= i < |lines| :: LineFresh(config, NOW, lines[i])
  {}

  lemma {:induction false} HitIsSettled()
    ensures Settled(BeforeSearch())
  {
    MergedFirst();
    SecondFresh(LOWERED, BeforeSearch().lines);
  }

  lemma {:induction false} StaleSearched(dist: Distance)
    ensures SearchedTo(BeforeSearch(), dist, AfterSearch())
  {
    var w := BeforeSearch();
    MergedFirst();
    SecondUpToDate(w.lines);
    FlagStays(QueryOf(w), w.lines, dist, w.request.value.hit);
    SearchedAs(w, dist, w.request.value.hit, 0, 0);
  }

  /** Sizing then goes by the stale flag. */
  lemma {:induction false} StaleSized(dist: Distance)
    ensures Reached(Sized(AfterSearch()), dist)
  {
    PositionReached(dist);
    StaleSearched(dist);
    ReachedNext(BeforeSearch(), Search, dist, AfterSearch());
    ReachedNext(AfterSearch(), Size, dist, Sized(AfterSearch()));
  }

  lemma {:induction false} SizedBeyondLimits()
    ensures var w := Sized(AfterSearch());
            w.request.Some? && !Fits(w.request.value.beacons, BeforeSearch().config.policy.limits)
  {}

  /** A run leads to the settled request of w, and a second search and a sizing call put it beyond the limits. */
  ghost predicate ComesToExceed(w: World, dist: Distance, w': World) {
    && Ready(w) && Reached(w, dist) && Settled(w) && SearchedTo(w, dist, w')
    && (IsCacheHit(w'.request.value) ==> 0 <= w'.request.value.getFrom < |w'.lines|)
    && Reached(Sized(w'), dist)
    && Sized(w').request.Some? && !Fits(Sized(w').request.value.beacons, w.config.policy.limits)
  }

  lemma {:induction false} StaleExceeds(dist: Distance)
    ensures ComesToExceed(BeforeSearch(), dist, AfterSearch())
  {
    PositionReached(dist);
    HitIsSettled();
    StaleSearched(dist);
    StaleSized(dist);
    SizedBeyondLimits();
  }

  /** There is such a run. */
  lemma {:induction false} StaleHitExceedsLimits()
    ensures exists w: World, dist: Distance, w': World :: ComesToExceed(w, dist, w')
  {
    StaleExceeds((a, b, c, d) => 0.0);
  }

  // ----- sizing calls that substitute for ever -----

  /** No sizing call of the run goes without a substitution, and there are n of them. */
  ghost predicate Circles(worlds: seq<World>, events: seq<Event>, dist: Distance, n: nat) {
    && IsRun(worlds, events, dist)
    && (forall i: nat | i < |events| && events[i].Size? :: Substitutes(worlds[i], events[i]))
    && Substitutions(worlds, events, 0, |events|) == n
  }

  ghost predicate Circled(w: World, dist: Distance, n: nat) {
    exists worlds, events :: Circles(worlds, events, dist, n) && worlds[|events|] == w
  }

  lemma {:induction false} SubstitutionsKept(worlds: seq<World>, events: seq<Event>, e: Event, w': World, j: nat)
    requires |worlds| == |events| + 1 && j <= |events|
    ensures Substitutions(worlds + [w'], events + [e], 0, j) == Substitutions(worlds, events, 0, j)
  {
    if j > 0 {
      SubstitutionsKept(worlds, events, e, w', j - 1);
    }
  }

  lemma {:induction false} CirclesNext(worlds: seq<World>, events: seq<Event>, dist: Distance, n: nat, e: Event, w': World)
    requires Circles(worlds, events, dist, n) && Ready(worlds[|events|]) && Allowed(worlds[|events|], e)
    requires Step(worlds[|events|], e, dist, w') && (e.Size? ==> Substitutes(worlds[|events|], e))
    ensures Circles(worlds + [w'], events + [e], dist, n + if e.Size? then 1 else 0)
  {
    RunExtended(worlds, events, dist, e, w');
    SubstitutionsKept(worlds, events, e, w', |events|);
    var worlds', events' := worlds + [w'], events + [e];
    forall i: nat | i < |events'| && events'[i].Size? ensures Substitutes(worlds'[i], events'[i]) {
      if i < |events| {
        assert events[i].Size?;
      }
    }
  }

  lemma {:induction false} CircledNext(w: World, e: Event, dist: Distance, n: nat, w': World)
    requires Ready(w) && Circled(w, dist, n) && Allowed(w, e) && Step(w, e, dist, w') && !e.Size?
    ensures Ready(w') && Circled(w', dist, n)
  {
    var worlds, events :| Circles(worlds, events, dist, n) && worlds[|events|] == w;
    CirclesNext(worlds, events, dist, n, e, w');
    StepKeepsReady(w, e, dist, w');
  }

  lemma {:induction false} CircledSized(w: World, dist: Distance, n: nat, w': World)
    requires Ready(w) && Circled(w, dist, n) && Substitutes(w, Size) && Step(w, Size, dist, w')
    ensures Ready(w') && Circled(w', dist, n + 1)
  {
    var worlds, events :| Circles(worlds, events, dist, n) && worlds[|events|] == w;
    CirclesNext(worlds, events, dist, n, Size, w');
    StepKeepsReady(w, Size, dist, w');
  }

  function OneLine(line: Cacheline, cacheHits: nat, r: Ongoing): World {
    World(DEFAULTS, [line], cacheHits, Some(r))
  }

  /** The only line holds the request's own scan. */
  function Circling(cacheHits: nat, hit: bool): World {
    OneLine(Stored(Small()), cacheHits, Fresh(Small()).(hit := hit, getFrom := 0))
  }

  /** The one line holds the scan itself. */
  lemma {:induction false} OwnLineMatched(q: Query, lines: seq<Cacheline>, dist: Distance, wasHit: bool)
    requires Invariant(q.beacons) && NumAps(q.beacons) > 0 && q.gnss == None && q.config.matchAllThreshold < 100
    requires lines == [Stored(q.beacons)]
    ensures MatchedByAps(q, lines, dist, wasHit, true, 0, -1)
  {
    OwnCopyAnswers(q, lines[0], dist);
    assert HasAnswer(q, lines, dist);
    OwnLineIsBest(Marks(q, lines, dist));
  }

  lemma {:induction false} OwnLineIsBest(m: seq<Mark>)
    requires m == [Mark(true, 1.0)]
    ensures IsBest(m, 1, 0) && IsWorst(m, 1, -1)
  {}

  lemma {:induction false} OwnLineFound(w: World, dist: Distance)
    requires Ready(w) && w.request.Some? && !w.request.value.hit && w.request.value.time == NOW
    requires NumAps(w.request.value.beacons) > 0 && w.request.value.gnss == None && w.config.matchAllThreshold < 100
    requires w.lines == [Stored(w.request.value.beacons)]
    ensures SearchedTo(w, dist, w.(request := Some(w.request.value.(hit := true, getFrom := 0, saveTo := -1))))
  {
    OwnLineMatched(QueryOf(w), w.lines, dist, w.request.value.hit);
    SearchedAs(w, dist, true, 0, -1);
  }

  lemma {:induction false} CircleStarted(dist: Distance)
    ensures Ready(OneLine(Emptied([]), 0, Fresh([]))) && Circled(OneLine(Emptied([]), 0, Fresh([])), dist, 0)
  {
    var e := Emptied([]);
    var w0 := World(DEFAULTS, [e], 0, None);
    OpenedReached(w0, dist);
    assert Circles([w0], [], dist, 0);
    assert RefreshedAll(w0.config, NOW, w0.lines) == [e];
    CircledNext(w0, Event.Start(NOW), dist, 0, OneLine(e, 0, Fresh([])));
  }

  lemma {:induction false} CircledAdding(w: World, m: Macs.Mac, t: List, dist: Distance, n: nat)
    requires Ready(w) && Circled(w, dist, n) && w.request.Some? && m in {MAC_A, MAC_B}
    requires NoneLive(w.lines)
    requires t == Merged(w.request.value.beacons, SomeAp(m)) && InLimits(t, w.config.policy.limits)
    ensures Ready(WithBeacons(w, t)) && Circled(WithBeacons(w, t), dist, n)
  {
    AddedWithin(w, m, t);
    CircledNext(w, Add(SomeAp(m), Auth.TIME_UNAVAILABLE), dist, n, WithBeacons(w, t));
  }

  lemma {:induction false} CircleAdded(dist: Distance)
    ensures Ready(OneLine(Emptied([]), 0, Fresh(Small()))) && Circled(OneLine(Emptied([]), 0, Fresh(Small())), dist, 0)
  {
    var w1 := OneLine(Emptied([]), 0, Fresh([]));
    CircleStarted(dist);
    MergedFirst();
    NoneLiveYet([]);
    CircledAdding(w1, MAC_A, Small(), dist, 0);
    assert WithBeacons(w1, Small()) == OneLine(Emptied([]), 0, Fresh(Small()));
  }

  lemma {:induction false} CircleStored(dist: Distance)
    ensures Ready(OneLine(Stored(Small()), 0, Fresh(Small())))
    ensures Circled(OneLine(Stored(Small()), 0, Fresh(Small())), dist, 0)
  {
    var w2, w3 := OneLine(Emptied([]), 0, Fresh(Small())), OneLine(Stored(Small()), 0, Fresh(Small()));
    CircleAdded(dist);
    StoredAs(w2, 0, DEFAULTS, w3);
    CircledNext(w2, Event.Receive(DEFAULTS, [], Some(HereAt())), dist, 0, w3);
  }

  /** Start, add, receive a location, search: the request hits its own scan. */
  lemma {:induction false} CircleEntered(dist: Distance)
    ensures Ready(Circling(0, true)) && Circled(Circling(0, true), dist, 0)
  {
    var w3 := OneLine(Stored(Small()), 0, Fresh(Small()));
    CircleStored(dist);
    MergedFirst();
    OwnLineFound(w3, dist);
    CircledNext(w3, Search, dist, 0, Circling(0, true));
  }

  lemma {:induction false} SizedAndIgnored(dist: Distance, n: nat)
    requires Ready(Circling(0, true)) && Circled(Circling(0, true), dist, n)
    ensures Ready(Circling(1, false)) && Circled(Circling(1, false), dist, n + 1)
  {
    CircledSized(Circling(0, true), dist, n, Circling(1, true));
    CircledNext(Circling(1, true), Ignore, dist, n + 1, Circling(1, false));
  }

  lemma {:induction false} Answered(dist: Distance, n: nat)
    requires Ready(Circling(1, false)) && Circled(Circling(1, false), dist, n)
    ensures Ready(Circling(0, false)) && Circled(Circling(0, false), dist, n)
  {
    assert WithUsedFlags(Small(), []) == Small();
    CircledNext(Circling(1, false), Event.Receive(DEFAULTS, [], None), dist, n, Circling(0, false));
  }

  lemma {:induction false} FoundAgain(dist: Distance, n: nat)
    requires Ready(Circling(0, false)) && Circled(Circling(0, false), dist, n)
    ensures Circled(Circling(0, true), dist, n)
  {
    MergedFirst();
    OwnLineFound(Circling(0, false), dist);
    CircledNext(Circling(0, false), Search, dist, n, Circling(0, true));
  }

  /** Size on the hit, ignore the hit, receive a response without location, search again: the session is back where it
      was. */
  lemma {:induction false} OnceAround(dist: Distance, n: nat)
    requires Ready(Circling(0, true)) && Circled(Circling(0, true), dist, n)
    ensures Circled(Circling(0, true), dist, n + 1)
  {
    SizedAndIgnored(dist, n);
    Answered(dist, n + 1);
    FoundAgain(dist, n + 1);
  }

  lemma {:induction false} CircledOften(dist: Distance, n: nat)
    ensures Ready(Circling(0, true)) && Circled(Circling(0, true), dist, n)
  {
    CircleEntered(dist);
    if n > 0 {
      CircledOften(dist, n - 1);
      OnceAround(dist, n - 1);
    }
  }

  /** The count bounds the substitutions between misses, not those of successive sizing calls: for every n there is a run
      whose n sizing calls all substitute. */
  lemma {:induction false} HitsCanCircle(n: nat)
    ensures exists worlds: seq<World>, events: seq<Event>, dist: Distance :: Circles(worlds, events, dist, n)
  {
    CircledOften((a, b, c, d) => 0.0, n);
  }
}
