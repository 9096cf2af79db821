/** Runs of a session with one live request: starting, adding, searching, sizing and decoding (libel/libel.c), as far as
    they concern the request list and the stored scans. */
module ClientRuns {
  import Matching
  import opened Beacons
  import opened Prelude
  import opened SeqFacts
  import opened RequestList
  import opened Filtering
  import opened Auth
  import opened Contexts
  import opened Requests
  import opened ScanCache

  /** The live request. */
  datatype Ongoing = Ongoing(beacons: List, gnss: Option<Gnss>, time: Uint32, hit: bool, getFrom: int, saveTo: int)

  datatype World = World(config: Config, lines: seq<Cacheline>, cacheHits: nat, request: Option<Ongoing>)

  function QueryOf(w: World): Query
    requires w.request.Some?
  {
    var r := w.request.value;
    Query(r.beacons, r.gnss, r.time, w.config)
  }

  predicate IsCacheHit(r: Ongoing) {
    r.getFrom != -1 && r.hit
  }

  // ----- starting a request -----

  /** A line is emptied if its scan exceeds the limits, if the clock is bad, or if it is too old. */
  function Refreshed(config: Config, now: Uint32, cl: Cacheline): Cacheline {
    var bad := now < TIMESTAMP_2019_03_01;
    if !Fits(cl.beacons, config.policy.limits) then cl.(time := CACHE_EMPTY)
    else if Live(cl) && (bad || now - cl.time > AgeLimit(config)) then cl.(time := CACHE_EMPTY)
    else cl
  }

  function RefreshedAll(config: Config, now: Uint32, lines: seq<Cacheline>): (r: seq<Cacheline>)
    ensures |r| == |lines| && forall i | 0 <= i < |lines| :: r[i] == Refreshed(config, now, lines[i])
  {
    seq(|lines|, i requires 0 <= i < |lines| => Refreshed(config, now, lines[i]))
  }

  // ----- sizing a request -----

  const MAX_CACHE_HITS: nat := 127

  /** A hit replaces the request's scan by the stored one, except that after 127 in a row a miss is forced. */
  function Sized(w: World): World
    requires w.request.Some? && (IsCacheHit(w.request.value) ==> 0 <= w.request.value.getFrom < |w.lines|)
  {
    var r := w.request.value;
    if !IsCacheHit(r) then w
    else if w.cacheHits < MAX_CACHE_HITS then
      var cl := w.lines[r.getFrom];
      w.(cacheHits := w.cacheHits + 1, request := Some(r.(beacons := cl.beacons, gnss := cl.gnss)))
    else
      w.(cacheHits := 0, request := Some(r.(getFrom := -1)))
  }

  // ----- decoding a response -----

  function SetUsed(b: Beacon, used: bool): Beacon {
    match b
    case Ap(h, ap) => Ap(h, ap.(used := used))
    case _ => b
  }

  /** The server says which access points it used, by position. */
  function WithUsedFlags(s: List, used: seq<bool>): (t: List)
    ensures |t| == |s|
    ensures forall i | 0 <= i < |s| :: t[i] == if i < |used| then SetUsed(s[i], used[i]) else s[i]
  {
    seq(|s|, i requires 0 <= i < |s| => if i < |used| then SetUsed(s[i], used[i]) else s[i])
  }

  // ----- steps -----

  /** What the caller, the clock and the server contribute. A readable response may change the settings, mark access
      points used, and bring a location. */
  datatype Event =
    | Start(now: Uint32)
    | Add(beacon: Beacon, timestamp: int)
    | Position(gnss: Option<Gnss>)
    | Search
    | Ignore
    | Size
    | Receive(config: Config, used: seq<bool>, location: Option<Location>)

  ghost predicate AddedTo(w: World, b: Beacon, timestamp: int, w': World)
    requires Ready(w) && w.request.Some?
  {
    var r := w.request.value;
    match Prepare(true, r.time, b, timestamp)
    case Reject(_) => w' == w
    case Accept(a) =>
      && w'.request.Some?
      && AddStep(w.config.policy, r.beacons, Recalled(w.lines, a), w'.request.value.beacons)
      && w' == w.(request := Some(r.(beacons := w'.request.value.beacons)))
  }

  /** A search leaves its findings in the request; a miss clears the count of hits. */
  ghost predicate SearchedTo(w: World, dist: Distance, w': World)
    requires w.request.Some?
  {
    var r := w.request.value;
    && w'.request.Some?
    && var r' := w'.request.value;
       && Searched(QueryOf(w), w.lines, w'.lines, dist, r.hit, r.saveTo, r'.hit, r'.getFrom, r'.saveTo)
       && w' == World(w.config, w'.lines, if r'.hit then w.cacheHits else 0,
                      Some(r.(hit := r'.hit, getFrom := r'.getFrom, saveTo := r'.saveTo)))
  }

  /** A response ends a request that missed by clearing the count of hits; a location is stored with the scan. */
  ghost predicate ReceivedTo(w: World, config: Config, used: seq<bool>, location: Option<Location>, w': World)
    requires w.request.Some?
  {
    var r := w.request.value;
    var r' := r.(beacons := WithUsedFlags(r.beacons, used));
    && w' == World(config, w'.lines, if r.hit then w.cacheHits else 0, Some(r'))
    && if location.Some? && location.value.time > TIMESTAMP_2019_03_01 then
         exists at: nat :: at < |w.lines| && StoredAt(w.lines, r.saveTo, r.time, at)
           && w'.lines == w.lines[at := Cacheline(location.value.time, r'.beacons, r.gnss, location.value)]
       else w'.lines == w.lines
  }

  function Started(w: World, now: Uint32): World {
    World(w.config, RefreshedAll(w.config, now, w.lines), w.cacheHits, Some(Ongoing([], None, now, false, -1, -1)))
  }

  /** A back-off may deny a start; the live context is gone then. */
  ghost predicate Step(w: World, e: Event, dist: Distance, w': World)
    requires Ready(w) && Allowed(w, e)
  {
    match e
    case Start(now) => w' == Started(w, now) || w' == w.(request := None)
    case Add(b, timestamp) => AddedTo(w, b, timestamp, w')
    case Position(gnss) => w' == w.(request := Some(w.request.value.(gnss := gnss)))
    case Search => SearchedTo(w, dist, w')
    case Ignore => w' == w.(request := Some(w.request.value.(hit := w.request.value.hit && !IsCacheHit(w.request.value))))
    case Size => w' == Sized(w)
    case Receive(config, used, location) => ReceivedTo(w, config, used, location, w')
  }

  /** Clocks stay below 2^31 seconds after March 2019, and new settings are well-formed. */
  predicate Allowed(w: World, e: Event) {
    match e
    case Start(now) => now < TIMESTAMP_2019_03_01 + 0x8000_0000
    case Receive(config, _, _) => w.request.Some? && Sound(config.policy)
    case _ => w.request.Some?
  }

  // ----- what every step keeps -----

  /** A stored scan is a list as requests hold them, and fits a line. */
  ghost predicate LineOk(cl: Cacheline) {
    Invariant(cl.beacons) && HasRoom(cl.beacons)
  }

  ghost predicate LinesOk(lines: seq<Cacheline>) {
    forall i | 0 <= i < |lines| :: LineOk(lines[i])
  }

  ghost predicate OngoingOk(r: Ongoing, n: nat) {
    && Invariant(r.beacons) && HasRoom(r.beacons)
    && r.time < TIMESTAMP_2019_03_01 + 0x8000_0000
    && -1 <= r.getFrom < n && -1 <= r.saveTo < n
  }

  ghost predicate Ready(w: World) {
    && Sound(w.config.policy) && |w.lines| >= 1 && LinesOk(w.lines) && w.cacheHits <= MAX_CACHE_HITS
    && (w.request.Some? ==> OngoingOk(w.request.value, |w.lines|))
  }

  lemma {:induction false} RefreshKeeps(w: World, now: Uint32)
    requires LinesOk(w.lines)
    ensures LinesOk(RefreshedAll(w.config, now, w.lines))
  {
    var r := RefreshedAll(w.config, now, w.lines);
    forall i | 0 <= i < |r| ensures LineOk(r[i]) {
      assert LineOk(w.lines[i]) && r[i].beacons == w.lines[i].beacons;
    }
  }

  lemma {:induction false} SweepKeeps(q: Query, lines: seq<Cacheline>)
    requires LinesOk(lines)
    ensures LinesOk(SweptAll(q, lines))
  {
    var r := SweptAll(q, lines);
    forall i | 0 <= i < |r| ensures LineOk(r[i]) {
      assert LineOk(lines[i]) && r[i].beacons == lines[i].beacons;
    }
  }

  lemma {:induction false} AddKeeps(w: World, b: Beacon, timestamp: int, w': World)
    requires Ready(w) && w.request.Some? && AddedTo(w, b, timestamp, w')
    ensures Ready(w')
    ensures Fits(w.request.value.beacons, w.config.policy.limits) ==>
              w'.request.Some? && Fits(w'.request.value.beacons, w.config.policy.limits)
  {
    var r := w.request.value;
    if Prepare(true, r.time, b, timestamp).Accept? {
      PreparedIsValid(true, r.time, b, timestamp, w.lines);
      AddStepKeeps(w.config.policy, r.beacons, Recalled(w.lines, Prepare(true, r.time, b, timestamp).beacon),
                   w'.request.value.beacons);
    }
  }

  lemma {:induction false} ResultInRange(q: Query, before: seq<Cacheline>, lines: seq<Cacheline>, dist: Distance,
                                         wasHit: bool, wasSaveTo: int, hit: bool, getFrom: int, saveTo: int)
    requires Searched(q, before, lines, dist, wasHit, wasSaveTo, hit, getFrom, saveTo)
    requires |before| >= 1 && -1 <= wasSaveTo < |before|
    ensures |lines| == |before| && -1 <= getFrom < |lines| && -1 <= saveTo < |lines|
    ensures hit ==> getFrom >= 0
    ensures hit && !wasHit ==> Live(lines[getFrom])
  {
    if q.time >= TIMESTAMP_2019_03_01 && NumAps(q.beacons) > 0 && HasAnswer(q, lines, dist) {
      BestDecides(q, lines, dist, getFrom);
    }
  }

  lemma {:induction false} SearchKeeps(w: World, dist: Distance, w': World)
    requires Ready(w) && w.request.Some? && SearchedTo(w, dist, w')
    ensures Ready(w')
  {
    var r, r' := w.request.value, w'.request.value;
    ResultInRange(QueryOf(w), w.lines, w'.lines, dist, r.hit, r.saveTo, r'.hit, r'.getFrom, r'.saveTo);
    SweepKeeps(QueryOf(w), w.lines);
  }

  lemma {:induction false} SetUsedIsInvisible(a: Beacon, b: Beacon, u: bool, v: bool)
    ensures ValidBeacon(a) ==> ValidBeacon(SetUsed(a, u))
    ensures Rank(SetUsed(a, u)) == Rank(a) && SetUsed(a, u).Ap? == a.Ap?
    ensures Equal(SetUsed(a, u), SetUsed(b, v)) == Equal(a, b)
    ensures Equal(SetUsed(a, u), b) == Equal(a, b) == Equal(a, SetUsed(b, v))
  {}

  lemma {:induction false} UsedFlagsKeep(s: List, used: seq<bool>)
    requires Invariant(s)
    ensures Invariant(WithUsedFlags(s, used))
    ensures |WithUsedFlags(s, used)| == |s| && NumAps(WithUsedFlags(s, used)) == NumAps(s)
  {
    var t := WithUsedFlags(s, used);
    forall i | 0 <= i < |s| ensures ValidBeacon(t[i]) && IsAp(t[i]) == IsAp(s[i]) && Rank(t[i]) == Rank(s[i]) {
      SetUsedIsInvisible(s[i], s[i], i < |used| && used[i], false);
    }
    forall i, j | 0 <= i < j < |s| ensures Unequal(t[i], t[j]) {
      assert Unequal(s[i], s[j]);
      SetUsedIsInvisible(s[i], s[j], i < |used| && used[i], j < |used| && used[j]);
    }
    forall i, j | 0 <= i < j < |s| ensures NotBelow(t[i], t[j]) {
      assert NotBelow(s[i], s[j]);
    }
    CountSame(IsAp, s, t);
  }

  /** The used flags are set by position, and nothing else changes. */
  lemma {:induction false} UsedFlagsMeaning(s: List, used: seq<bool>, i: nat)
    requires i < |s|
    ensures var t := WithUsedFlags(s, used);
            && (s[i].Ap? ==> t[i].Ap? && t[i].h == s[i].h && t[i].ap.mac == s[i].ap.mac && t[i].ap.freq == s[i].ap.freq)
            && (s[i].Ap? && i < |used| ==> t[i].ap.used == used[i])
            && (!s[i].Ap? || i >= |used| ==> t[i] == s[i])
  {}

  lemma {:induction false} ReceiveKeeps(w: World, config: Config, used: seq<bool>, location: Option<Location>, w': World)
    requires Ready(w) && w.request.Some? && Sound(config.policy) && ReceivedTo(w, config, used, location, w')
    ensures Ready(w')
  {
    UsedFlagsKeep(w.request.value.beacons, used);
  }

  lemma {:induction false} StepKeepsReady(w: World, e: Event, dist: Distance, w': World)
    requires Ready(w) && Allowed(w, e) && Step(w, e, dist, w')
    ensures Ready(w')
  {
    match e
    case Start(now) => RefreshKeeps(w, now);
    case Add(b, timestamp) => AddKeeps(w, b, timestamp, w');
    case Search => SearchKeeps(w, dist, w');
    case Receive(config, used, location) => ReceiveKeeps(w, config, used, location, w');
    case Size =>
      if IsCacheHit(w.request.value) {
        assert LineOk(w.lines[w.request.value.getFrom]);
      }
    case _ =>
  }

  /** What a call does is determined by the state and what caller, clock and server contribute, but for a back-off that may
      deny a start. */
  lemma {:induction false} StepIsDetermined(w: World, e: Event, dist: Distance, w': World, w'': World)
    requires Ready(w) && Allowed(w, e) && Step(w, e, dist, w') && Step(w, e, dist, w'')
    requires e.Start? ==> (w'.request.Some? <==> w''.request.Some?)
    ensures w' == w''
  {
    match e
    case Add(b, timestamp) => AddIsDetermined(w, b, timestamp, w', w'');
    case Search => SearchStepIsDetermined(w, dist, w', w'');
    case Receive(config, used, location) => ReceiveIsDetermined(w, config, used, location, w', w'');
    case _ =>
  }

  lemma {:induction false} AddIsDetermined(w: World, b: Beacon, timestamp: int, w': World, w'': World)
    requires Ready(w) && w.request.Some? && AddedTo(w, b, timestamp, w') && AddedTo(w, b, timestamp, w'')
    ensures w' == w''
  {
    var r := w.request.value;
    if Prepare(true, r.time, b, timestamp).Accept? {
      PreparedIsValid(true, r.time, b, timestamp, w.lines);
      AddStepIsDetermined(w.config.policy, r.beacons, Recalled(w.lines, Prepare(true, r.time, b, timestamp).beacon),
                          w'.request.value.beacons, w''.request.value.beacons);
    }
  }

  lemma {:induction false} SearchStepIsDetermined(w: World, dist: Distance, w': World, w'': World)
    requires w.request.Some? && SearchedTo(w, dist, w') && SearchedTo(w, dist, w'')
    ensures w' == w''
  {
    var r, r', r'' := w.request.value, w'.request.value, w''.request.value;
    SearchIsDetermined(QueryOf(w), w.lines, w'.lines, dist, r.hit, r.saveTo, r'.hit, r'.getFrom, r'.saveTo,
                       r''.hit, r''.getFrom, r''.saveTo);
  }

  lemma {:induction false} ReceiveIsDetermined(w: World, config: Config, used: seq<bool>, location: Option<Location>,
                                               w': World, w'': World)
    requires w.request.Some? && ReceivedTo(w, config, used, location, w') && ReceivedTo(w, config, used, location, w'')
    ensures w' == w''
  {
    var r := w.request.value;
    if location.Some? && location.value.time > TIMESTAMP_2019_03_01 {
      var cl := Cacheline(location.value.time, WithUsedFlags(r.beacons, used), r.gnss, location.value);
      var i: nat :| i < |w.lines| && StoredAt(w.lines, r.saveTo, r.time, i) && w'.lines == w.lines[i := cl];
      var j: nat :| j < |w.lines| && StoredAt(w.lines, r.saveTo, r.time, j) && w''.lines == w.lines[j := cl];
      if r.saveTo < 0 {
        ReusedIsUnique(w.lines, r.time, i, j);
      }
    }
  }

  // ----- runs -----

  /** Step i happens from a state in which it is defined. */
  ghost predicate StepAt(worlds: seq<World>, events: seq<Event>, dist: Distance, i: nat)
    requires i < |events| && |worlds| == |events| + 1
  {
    Ready(worlds[i]) ==> Allowed(worlds[i], events[i]) && Step(worlds[i], events[i], dist, worlds[i + 1])
  }

  /** A freshly opened session: empty lines, no request. */
  ghost predicate Opened(w: World) {
    && Sound(w.config.policy) && |w.lines| >= 1 && w.cacheHits == 0 && w.request == None
    && forall i | 0 <= i < |w.lines| :: !Live(w.lines[i]) && w.lines[i].beacons == []
  }

  ghost predicate IsRun(worlds: seq<World>, events: seq<Event>, dist: Distance) {
    && |worlds| == |events| + 1 && Opened(worlds[0])
    && forall i: nat | i < |events| :: StepAt(worlds, events, dist, i)
  }

  /** Over all runs: every stored scan and the live request are valid, sorted, free of duplicates and within capacity,
      the indices into the cache are in range, and the count of hits stays within 0..127. */
  lemma {:induction false} RunsStayReady(worlds: seq<World>, events: seq<Event>, dist: Distance, i: nat)
    requires IsRun(worlds, events, dist) && i <= |events|
    ensures Ready(worlds[i])
  {
    if i > 0 {
      RunsStayReady(worlds, events, dist, i - 1);
      assert StepAt(worlds, events, dist, i - 1);
      StepKeepsReady(worlds[i - 1], events[i - 1], dist, worlds[i]);
    }
  }

  /** Live lines carry a time after March 2019. */
  ghost predicate Dated(w: World) {
    forall i | 0 <= i < |w.lines| && Live(w.lines[i]) :: w.lines[i].time > TIMESTAMP_2019_03_01
  }

  lemma {:induction false} StepKeepsDated(w: World, e: Event, dist: Distance, w': World)
    requires Ready(w) && Allowed(w, e) && Step(w, e, dist, w') && Dated(w)
    ensures Dated(w')
  {
    if e.Start? && w'.request.Some? {
      assert w'.lines == RefreshedAll(w.config, e.now, w.lines);
    }
  }

  /** Over all runs. */
  lemma {:induction false} LiveLinesAreDated(worlds: seq<World>, events: seq<Event>, dist: Distance, i: nat)
    requires IsRun(worlds, events, dist) && i <= |events|
    ensures Dated(worlds[i])
  {
    if i > 0 {
      LiveLinesAreDated(worlds, events, dist, i - 1);
      RunsStayReady(worlds, events, dist, i - 1);
      assert StepAt(worlds, events, dist, i - 1);
      StepKeepsDated(worlds[i - 1], events[i - 1], dist, worlds[i]);
    }
  }

  // ----- a scan just stored is found -----

  /** Whatever state the session is in: when a response brings a location for a request with access points, a search
      right after it always hits, and the line it reads pairs perfectly with the request. The request's clock must be
      good and its scan not expired by the location's time, the match-all threshold below 100, and a position must
      count as its own match. */
  lemma {:induction false} StoredIsFound(w: World, config: Config, used: seq<bool>, loc: Location, w1: World,
                                         dist: Distance, w2: World)
    requires Ready(w) && w.request.Some? && Sound(config.policy) && NumAps(w.request.value.beacons) > 0
    requires loc.time > TIMESTAMP_2019_03_01 && ReceivedTo(w, config, used, Some(loc), w1) && SearchedTo(w1, dist, w2)
    requires w.request.value.time >= TIMESTAMP_2019_03_01 && w.request.value.time - loc.time <= AgeLimit(config)
    requires config.matchAllThreshold < 100 && OwnPositionAccepted(w.request.value.gnss, dist)
    ensures w2.request.value.hit && 0 <= w2.request.value.getFrom < |w2.lines|
    ensures var cl := w2.lines[w2.request.value.getFrom];
            ScoreOf(QueryOf(w1), cl) == NumAps(w.request.value.beacons) == NumAps(cl.beacons)
  {
    var r, r1, r2 := w.request.value, w1.request.value, w2.request.value;
    var at: nat :| at < |w.lines| && StoredAt(w.lines, r.saveTo, r.time, at)
      && w1.lines == w.lines[at := Cacheline(loc.time, r1.beacons, r.gnss, loc)];
    ReceiveKeeps(w, config, used, Some(loc), w1);
    UsedFlagsKeep(r.beacons, used);
    StoreThenSearch(QueryOf(w1), w1.lines, dist, at, r1.hit, r2.hit, r2.getFrom, r2.saveTo);
  }

  // ----- what a hit tells -----

  /** More than so many percent. */
  predicate Above(part: int, percent: nat, whole: int) {
    100 * part > percent * whole
  }

  /** The line is as like the request as the settings ask: by access points, all of them if the request has few groups
      and the match-all percentage of the union otherwise; without access points, every cell of the request is in it. */
  ghost predicate Alike(q: Query, cl: Cacheline) {
    if NumAps(q.beacons) > 0 then
      var groups := Matching.UniqueGroups(MacsOf(q.beacons));
      var least := if groups <= q.config.beaconThreshold then 99 else q.config.matchAllThreshold;
      var common := Matching.Score(MacsOf(q.beacons), MacsOf(cl.beacons));
      NumAps(cl.beacons) > 0 && Above(common, least, NumAps(q.beacons) + NumAps(cl.beacons) - common)
    else forall x | x in q.beacons :: exists y :: y in cl.beacons && Equal(x, y)
  }

  /** The line answers the query by access points, or by cells if it has none. */
  ghost predicate AnswersSomehow(q: Query, cl: Cacheline, dist: Distance) {
    if NumAps(q.beacons) > 0 then Answers(q, cl, dist) else CellsAnswer(q, cl, dist)
  }

  lemma {:induction false} HitAnswers(q: Query, before: seq<Cacheline>, lines: seq<Cacheline>, dist: Distance,
                                      wasSaveTo: int, getFrom: int, saveTo: int)
    requires Searched(q, before, lines, dist, false, wasSaveTo, true, getFrom, saveTo)
    ensures q.time >= TIMESTAMP_2019_03_01 && lines == SweptAll(q, before)
    ensures 0 <= getFrom < |lines| && AnswersSomehow(q, lines[getFrom], dist)
  {
    if q.time >= TIMESTAMP_2019_03_01 && NumAps(q.beacons) > 0 {
      LineRead(q, lines, dist, false, true, getFrom, saveTo);
    }
  }

  lemma {:induction false} ApsAreAlike(q: Query, cl: Cacheline, dist: Distance)
    requires NumAps(q.beacons) > 0 && Answers(q, cl, dist)
    ensures Alike(q, cl)
  {
    assert Above(ScoreOf(q, cl), Threshold(q), UnionOf(q, cl));
  }

  lemma {:induction false} AnswerTells(q: Query, cl: Cacheline, dist: Distance)
    requires Invariant(q.beacons) && LineOk(cl) && AnswersSomehow(q, cl, dist)
    ensures cl.time != 0 && SameServingCell(q.beacons, cl.beacons) && PositionAgrees(q.gnss, cl.gnss, dist)
    ensures Alike(q, cl)
  {
    EligibleIff(q, cl, dist);
    if NumAps(q.beacons) == 0 {
      CellsAreAlike(q, cl, dist);
    } else {
      ApsAreAlike(q, cl, dist);
    }
  }

  lemma {:induction false} SweptIsRecent(q: Query, before: Cacheline)
    ensures Live(Swept(q, before)) ==> q.time - Swept(q, before).time <= q.config.ageThreshold * 3600
  {
    AtMostItself(q.config.ageThreshold * 3600);
  }

  lemma {:induction false} AtMostItself(n: nat)
    ensures n % 0x1_0000_0000 <= n
  {}

  /** A search that starts with the flag clear and hits tells the truth: the line it reads is live, no older than the age
      limit, has the request's serving cell if both have one, agrees with its position, and is alike. */
  lemma {:induction false} HitIsTrue(w: World, dist: Distance, w': World)
    requires Ready(w) && w.request.Some? && !w.request.value.hit && SearchedTo(w, dist, w') && w'.request.value.hit
    ensures 0 <= w'.request.value.getFrom < |w'.lines|
    ensures var cl := w'.lines[w'.request.value.getFrom];
            var q := QueryOf(w);
            && cl.time != 0 && q.time >= TIMESTAMP_2019_03_01 && q.time - cl.time <= q.config.ageThreshold * 3600
            && SameServingCell(q.beacons, cl.beacons) && PositionAgrees(q.gnss, cl.gnss, dist) && Alike(q, cl)
  {
    var r, r', q := w.request.value, w'.request.value, QueryOf(w);
    HitAnswers(q, w.lines, w'.lines, dist, r.saveTo, r'.getFrom, r'.saveTo);
    SweepKeeps(q, w.lines);
    var cl := w'.lines[r'.getFrom];
    assert LineOk(cl);
    AnswerTells(q, cl, dist);
    SweptIsRecent(q, w.lines[r'.getFrom]);
  }

  lemma {:induction false} CellsAreAlike(q: Query, cl: Cacheline, dist: Distance)
    requires NumAps(q.beacons) == 0
    ensures CellsAnswer(q, cl, dist) ==> Alike(q, cl)
  {
    if CellsAnswer(q, cl, dist) {
      forall x | x in q.beacons ensures exists y :: y in cl.beacons && Equal(x, y) {
        var i :| 0 <= i < |q.beacons| && q.beacons[i] == x;
        assert FoundIn(cl, q.beacons[i]);
        assert cl.beacons[FindDuplicate(cl.beacons, x)] in cl.beacons;
      }
    }
  }

  // ----- from the start of a request to the next -----

  /** A live line fits the limits and is not too old for the request. */
  ghost predicate LineFresh(config: Config, time: Uint32, cl: Cacheline) {
    Live(cl) ==>
      Fits(cl.beacons, config.policy.limits) && TIMESTAMP_2019_03_01 <= time && time - cl.time <= AgeLimit(config)
  }

  ghost predicate AllFresh(w: World)
    requires w.request.Some?
  {
    forall i | 0 <= i < |w.lines| :: LineFresh(w.config, w.request.value.time, w.lines[i])
  }

  /** The hit flag, if set, points at a live line. */
  predicate HitIsLive(w: World)
    requires w.request.Some?
  {
    var r := w.request.value;
    r.hit && r.getFrom != -1 ==> 0 <= r.getFrom < |w.lines| && Live(w.lines[r.getFrom])
  }

  ghost predicate Settled(w: World) {
    w.request.Some? && Fits(w.request.value.beacons, w.config.policy.limits) && AllFresh(w) && HitIsLive(w)
  }

  /** The response tightens the limits or the age limit, or it brings a location to store under a bad clock: a location
      older than the request, or a request older than March 2019. */
  predicate Unsettling(w: World, config: Config, location: Option<Location>)
    requires w.request.Some?
  {
    var before, after, time := w.config.policy.limits, config.policy.limits, w.request.value.time;
    || after.totalBeacons < before.totalBeacons || after.maxApBeacons < before.maxApBeacons
    || AgeLimit(config) < AgeLimit(w.config)
    || (location.Some? && location.value.time > TIMESTAMP_2019_03_01 &&
        !(TIMESTAMP_2019_03_01 <= time <= location.value.time))
  }

  /** No new request, and no response that unsettles. */
  predicate Undisturbed(w: World, e: Event) {
    && !e.Start? && w.request.Some?
    && match e
       case Receive(config, _, location) => !Unsettling(w, config, location)
       case _ => true
  }

  /** And searches start with the hit flag clear. */
  predicate Quiet(w: World, e: Event) {
    Undisturbed(w, e) && (e.Search? ==> !w.request.value.hit)
  }

  lemma {:induction false} StartSettles(w: World, now: Uint32)
    requires Ready(w)
    ensures Settled(Started(w, now))
  {
    var w' := Started(w, now);
    assert Fits([], w.config.policy.limits);
    forall i | 0 <= i < |w'.lines| ensures LineFresh(w.config, now, w'.lines[i]) {
      assert w'.lines[i] == Refreshed(w.config, now, w.lines[i]);
    }
  }

  lemma {:induction false} SearchSettled(w: World, dist: Distance, w': World)
    requires Ready(w) && Settled(w) && SearchedTo(w, dist, w') && !w.request.value.hit
    ensures Settled(w')
  {
    var r, r' := w.request.value, w'.request.value;
    ResultInRange(QueryOf(w), w.lines, w'.lines, dist, r.hit, r.saveTo, r'.hit, r'.getFrom, r'.saveTo);
    forall i | 0 <= i < |w'.lines| ensures LineFresh(w.config, r.time, w'.lines[i]) {
      assert LineFresh(w.config, r.time, w.lines[i]);
    }
  }

  lemma {:induction false} SizeSettled(w: World)
    requires Ready(w) && Settled(w)
    ensures Settled(Sized(w))
  {
    var r := w.request.value;
    if IsCacheHit(r) {
      assert LineFresh(w.config, r.time, w.lines[r.getFrom]);
      var w' := Sized(w);
      assert w'.lines == w.lines && w'.config == w.config && w'.request.value.time == r.time;
      assert AllFresh(w');
    }
  }

  lemma {:induction false} ReceiveSettled(w: World, config: Config, used: seq<bool>, location: Option<Location>,
                                          w': World)
    requires Ready(w) && Settled(w) && Sound(config.policy) && ReceivedTo(w, config, used, location, w')
    requires !Unsettling(w, config, location)
    ensures Settled(w')
  {
    var r := w.request.value;
    UsedFlagsKeep(r.beacons, used);
    forall i | 0 <= i < |w'.lines| ensures LineFresh(config, r.time, w'.lines[i]) {
      assert LineFresh(w.config, r.time, w.lines[i]);
    }
  }

  lemma {:induction false} QuietKeepsSettled(w: World, e: Event, dist: Distance, w': World)
    requires Ready(w) && Settled(w) && Allowed(w, e) && Step(w, e, dist, w') && Quiet(w, e)
    ensures Settled(w')
  {
    if e.Add? {
      AddKeeps(w, e.beacon, e.timestamp, w');
      assert AllFresh(w') && HitIsLive(w');
    } else if e.Search? {
      SearchSettled(w, dist, w');
    } else if e.Size? {
      SizeSettled(w);
    } else if e.Receive? {
      ReceiveSettled(w, e.config, e.used, e.location, w');
    } else {
      assert AllFresh(w');
    }
  }

  /** From the start of a request until the next, as long as no response tightens the limits or stores under a bad clock
      and no search starts with the flag of an earlier hit still set: every live line fits the limits and the age limit,
      a hit points at a live line, and the request fits the limits, in particular after a stored scan has replaced it. */
  lemma {:induction false} RequestsStaySettled(worlds: seq<World>, events: seq<Event>, dist: Distance, s: nat, i: nat)
    requires IsRun(worlds, events, dist) && s < i <= |events|
    requires events[s].Start? && worlds[s + 1].request.Some?
    requires forall k | s < k < i :: Quiet(worlds[k], events[k])
    ensures Ready(worlds[i]) && Settled(worlds[i])
  {
    RunsStayReady(worlds, events, dist, i);
    if i == s + 1 {
      StartedSettled(worlds, events, dist, s);
    } else {
      RequestsStaySettled(worlds, events, dist, s, i - 1);
      SettledNext(worlds, events, dist, i - 1);
    }
  }

  lemma {:induction false} StartedSettled(worlds: seq<World>, events: seq<Event>, dist: Distance, s: nat)
    requires IsRun(worlds, events, dist) && s < |events| && events[s].Start? && worlds[s + 1].request.Some?
    ensures Settled(worlds[s + 1])
  {
    RunsStayReady(worlds, events, dist, s);
    assert StepAt(worlds, events, dist, s);
    StartSettles(worlds[s], events[s].now);
  }

  lemma {:induction false} SettledNext(worlds: seq<World>, events: seq<Event>, dist: Distance, i: nat)
    requires IsRun(worlds, events, dist) && i < |events|
    requires Settled(worlds[i]) && Quiet(worlds[i], events[i])
    ensures Settled(worlds[i + 1])
  {
    RunsStayReady(worlds, events, dist, i);
    assert StepAt(worlds, events, dist, i);
    QuietKeepsSettled(worlds[i], events[i], dist, worlds[i + 1]);
  }

  // ----- a cache of one line -----

  /** The only line is live if the flag is set. */
  ghost predicate SoleLineHeld(w: World) {
    && |w.lines| == 1 && Settled(w)
    && (w.request.value.hit ==> Live(w.lines[0]))
  }

  lemma {:induction false} SoleSearch(w: World, dist: Distance, w': World)
    requires Ready(w) && SoleLineHeld(w) && SearchedTo(w, dist, w')
    ensures SoleLineHeld(w')
  {
    var r, r' := w.request.value, w'.request.value;
    ResultInRange(QueryOf(w), w.lines, w'.lines, dist, r.hit, r.saveTo, r'.hit, r'.getFrom, r'.saveTo);
    assert LineFresh(w.config, r.time, w.lines[0]);
    assert w'.lines[0] == w.lines[0];
    assert AllFresh(w');
  }

  lemma {:induction false} SoleStep(w: World, e: Event, dist: Distance, w': World)
    requires Ready(w) && SoleLineHeld(w) && Allowed(w, e) && Step(w, e, dist, w') && Undisturbed(w, e)
    ensures SoleLineHeld(w')
  {
    if e.Search? {
      SoleSearch(w, dist, w');
    } else {
      QuietKeepsSettled(w, e, dist, w');
    }
  }

  lemma {:induction false} LinesStay(worlds: seq<World>, events: seq<Event>, dist: Distance, i: nat)
    requires IsRun(worlds, events, dist) && i <= |events|
    ensures |worlds[i].lines| == |worlds[0].lines|
  {
    if i > 0 {
      LinesStay(worlds, events, dist, i - 1);
      RunsStayReady(worlds, events, dist, i - 1);
      assert StepAt(worlds, events, dist, i - 1);
    }
  }

  lemma {:induction false} SoleNext(worlds: seq<World>, events: seq<Event>, dist: Distance, i: nat)
    requires IsRun(worlds, events, dist) && i < |events|
    requires SoleLineHeld(worlds[i]) && Undisturbed(worlds[i], events[i])
    ensures SoleLineHeld(worlds[i + 1])
  {
    RunsStayReady(worlds, events, dist, i);
    assert StepAt(worlds, events, dist, i);
    SoleStep(worlds[i], events[i], dist, worlds[i + 1]);
  }

  lemma {:induction false} SoleStarted(worlds: seq<World>, events: seq<Event>, dist: Distance, s: nat)
    requires IsRun(worlds, events, dist) && |worlds[0].lines| == 1
    requires s < |events| && events[s].Start? && worlds[s + 1].request.Some?
    ensures SoleLineHeld(worlds[s + 1])
  {
    RunsStayReady(worlds, events, dist, s);
    LinesStay(worlds, events, dist, s + 1);
    StartedSettled(worlds, events, dist, s);
    assert StepAt(worlds, events, dist, s);
  }

  /** With one line, the default size of the cache, searches may start with the flag set: the line the flag stands for is
      the line a stale hit reads. */
  lemma {:induction false} OneLineStaysSettled(worlds: seq<World>, events: seq<Event>, dist: Distance, s: nat, i: nat)
    requires IsRun(worlds, events, dist) && |worlds[0].lines| == 1 && s < i <= |events|
    requires events[s].Start? && worlds[s + 1].request.Some?
    requires forall k | s < k < i :: Undisturbed(worlds[k], events[k])
    ensures Ready(worlds[i]) && SoleLineHeld(worlds[i])
  {
    RunsStayReady(worlds, events, dist, i);
    if i == s + 1 {
      SoleStarted(worlds, events, dist, s);
    } else {
      OneLineStaysSettled(worlds, events, dist, s, i - 1);
      SoleNext(worlds, events, dist, i - 1);
    }
  }

  // ----- a cache of several lines -----

  /** Why the flag must be clear: searching again with it set, and finding nothing, leaves a "hit" on line 0, and sizing
      then replaces the request by whatever line 0 holds, even if it was emptied. The result fits the limits exactly if
      that old scan does. */
  lemma {:induction false} StaleHitSubstitutes(w: World, dist: Distance, w': World)
    requires Ready(w) && w.request.Some? && SearchedTo(w, dist, w')
    requires w.request.value.hit && w.request.value.time >= TIMESTAMP_2019_03_01 && NumAps(w.request.value.beacons) > 0
    requires !HasAnswer(QueryOf(w), w'.lines, dist) && w.cacheHits < MAX_CACHE_HITS
    ensures w'.request.value.hit && w'.request.value.getFrom == 0
    ensures Sized(w').request.value.beacons == w.lines[0].beacons
    ensures Fits(Sized(w').request.value.beacons, w.config.policy.limits) <==> Fits(w.lines[0].beacons, w.config.policy.limits)
  {}

  /** When a sized request stays within the limits: a search of a settled request that reports a hit was right, or line 0
      happens to fit. */
  lemma {:induction false} SizedWithinIff(w: World, dist: Distance, w': World)
    requires Ready(w) && Settled(w) && SearchedTo(w, dist, w') && w'.request.value.hit && w.cacheHits < MAX_CACHE_HITS
    requires w.request.value.time >= TIMESTAMP_2019_03_01 && NumAps(w.request.value.beacons) > 0
    ensures 0 <= w'.request.value.getFrom < |w'.lines|
    ensures Fits(Sized(w').request.value.beacons, w.config.policy.limits) <==>
            HasAnswer(QueryOf(w), w'.lines, dist) || Fits(w.lines[0].beacons, w.config.policy.limits)
  {
    var r, r' := w.request.value, w'.request.value;
    LineRead(QueryOf(w), w'.lines, dist, r.hit, r'.hit, r'.getFrom, r'.saveTo);
    if HasAnswer(QueryOf(w), w'.lines, dist) {
      assert LineFresh(w.config, r.time, w.lines[r'.getFrom]);
    }
  }

  // ----- the count of hits -----

  predicate Substitutes(w: World, e: Event) {
    e.Size? && w.request.Some? && IsCacheHit(w.request.value) && w.cacheHits < MAX_CACHE_HITS
  }

  /** How many of the steps i to j replace the request by a stored scan. */
  function Substitutions(worlds: seq<World>, events: seq<Event>, i: nat, j: nat): (n: nat)
    requires i <= j <= |events| && |worlds| == |events| + 1
    decreases j
  {
    if i == j then 0 else Substitutions(worlds, events, i, j - 1) + if Substitutes(worlds[j - 1], events[j - 1]) then 1 else 0
  }

  /** The calls that set the count back: a search that leaves the flag clear, a response while the flag is clear, and a
      sizing call that is a forced miss. */
  predicate SetsBack(w: World, e: Event, w': World) {
    && w.request.Some?
    && match e
       case Search => w'.request.Some? && !w'.request.value.hit
       case Receive(_, _, _) => !w.request.value.hit
       case Size => IsCacheHit(w.request.value) && w.cacheHits == MAX_CACHE_HITS
       case _ => false
  }

  /** From i to j no such call comes while there is something to set back. */
  predicate NoReset(worlds: seq<World>, events: seq<Event>, i: nat, j: nat)
    requires j <= |events| && |worlds| == |events| + 1
  {
    forall k | i <= k < j :: worlds[k].cacheHits > 0 ==> !SetsBack(worlds[k], events[k], worlds[k + 1])
  }

  /** The count falls at exactly those calls, and then to 0; otherwise it counts substitutions. */
  lemma {:induction false} HitsCounted(w: World, e: Event, dist: Distance, w': World)
    requires Ready(w) && Allowed(w, e) && Step(w, e, dist, w')
    ensures w'.cacheHits < w.cacheHits <==> w.cacheHits > 0 && SetsBack(w, e, w')
    ensures w'.cacheHits == if SetsBack(w, e, w') then 0 else w.cacheHits + if Substitutes(w, e) then 1 else 0
    ensures SetsBack(w, e, w') ==> !Substitutes(w, e)
  {}

  /** The count never exceeds the substitutions made since any earlier point, and equals them if and only if nothing has
      set it back. So while nothing sets it back at most 127 sizing calls substitute. */
  lemma {:induction false} HitsAreBounded(worlds: seq<World>, events: seq<Event>, dist: Distance, i: nat, j: nat)
    requires IsRun(worlds, events, dist) && i <= j <= |events|
    ensures worlds[j].cacheHits <= worlds[i].cacheHits + Substitutions(worlds, events, i, j)
    ensures worlds[j].cacheHits == worlds[i].cacheHits + Substitutions(worlds, events, i, j) <==>
            NoReset(worlds, events, i, j)
    ensures NoReset(worlds, events, i, j) ==> Substitutions(worlds, events, i, j) <= 127
    decreases j
  {
    RunsStayReady(worlds, events, dist, j);
    if i < j {
      HitsAreBounded(worlds, events, dist, i, j - 1);
      HitsNext(worlds, events, dist, j - 1);
      NoResetStep(worlds, events, i, j - 1);
    }
  }

  lemma {:induction false} NoResetStep(worlds: seq<World>, events: seq<Event>, i: nat, j: nat)
    requires i <= j < |events| && |worlds| == |events| + 1
    ensures NoReset(worlds, events, i, j + 1) <==>
            NoReset(worlds, events, i, j) && (worlds[j].cacheHits > 0 ==> !SetsBack(worlds[j], events[j], worlds[j + 1]))
  {}

  lemma {:induction false} HitsNext(worlds: seq<World>, events: seq<Event>, dist: Distance, i: nat)
    requires IsRun(worlds, events, dist) && i < |events|
    ensures var n := worlds[i].cacheHits + if Substitutes(worlds[i], events[i]) then 1 else 0;
            && worlds[i + 1].cacheHits <= n
            && (worlds[i + 1].cacheHits == n <==>
                (worlds[i].cacheHits > 0 ==> !SetsBack(worlds[i], events[i], worlds[i + 1])))
  {
    RunsStayReady(worlds, events, dist, i);
    assert StepAt(worlds, events, dist, i);
    HitsCounted(worlds[i], events[i], dist, worlds[i + 1]);
  }

  /** A sizing call on a hit is a forced miss exactly when 127 substitutions have been counted. */
  lemma {:induction false} ForcedMiss(w: World)
    requires Ready(w) && w.request.Some? && IsCacheHit(w.request.value)
    ensures !IsCacheHit(Sized(w).request.value) <==> w.cacheHits == 127
    ensures w.cacheHits == 127 ==> Sized(w).cacheHits == 0 && Sized(w).request.value.beacons == w.request.value.beacons
  {}
}
