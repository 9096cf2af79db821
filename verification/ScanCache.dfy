/** Finding a stored scan that matches a request, and storing scans: match and to_cache of plugins/ap_plugin_basic.c,
    match of plugins/cell_plugin_basic.c, and the cache functions of libel/beacons.c. */
module ScanCache {
  import opened Beacons
  import opened Prelude
  import opened RequestList
  import opened Filtering
  import opened Matching
  import opened Auth
  import opened Contexts
  import opened Requests

  /** The distance between two positions, in metres; its trigonometry does not matter here. */
  type Distance = (real, real, real, real) -> real

  /** What a search compares with the stored scans. */
  datatype Query = Query(beacons: List, gnss: Option<Gnss>, time: Uint32, config: Config)

  // ----- ageing -----

  /** The source multiplies 32-bit words, so a large threshold wraps. */
  function AgeLimit(c: Config): nat {
    (c.ageThreshold * SECONDS_IN_HOUR) % 0x1_0000_0000
  }

  predicate Expired(q: Query, cl: Cacheline) {
    Live(cl) && q.time - cl.time > AgeLimit(q.config)
  }

  function Swept(q: Query, cl: Cacheline): Cacheline {
    if Expired(q, cl) then cl.(time := CACHE_EMPTY) else cl
  }

  function SweptAll(q: Query, lines: seq<Cacheline>): (r: seq<Cacheline>)
    ensures |r| == |lines| && forall i | 0 <= i < |lines| :: r[i] == Swept(q, lines[i])
  {
    seq(|lines|, i requires 0 <= i < |lines| => Swept(q, lines[i]))
  }

  /** With a threshold of hours that does not wrap, a line stays live exactly if it is at most that old, and otherwise
      only its time changes. */
  lemma {:induction false} SweptIff(q: Query, cl: Cacheline)
    requires q.config.ageThreshold * 3600 < 0x1_0000_0000
    ensures Live(Swept(q, cl)) <==> cl.time != 0 && q.time - cl.time <= q.config.ageThreshold * 3600
    ensures Swept(q, cl).(time := cl.time) == cl && (Live(Swept(q, cl)) ==> Swept(q, cl) == cl)
  {}

  // ----- what rules a line out -----

  /** serving_cell_changed: both scans lead with an identified cell, and not the same one. */
  predicate ServingCellChanged(s: List, line: List) {
    if NumCells(s) == 0 || NumCells(line) == 0 then false
    else
      var w, c := s[NumAps(s)], line[NumAps(line)];
      if IsNmr(w) || IsNmr(c) then false else !Equal(w, c)
  }

  /** cached_gnss_worse: the request has a position, and the line none, a less accurate or a too distant one. */
  predicate CachedGnssWorse(g: Option<Gnss>, cached: Option<Gnss>, dist: Distance) {
    if g.None? then false
    else if cached.None? then true
    else if g.value.hpe < cached.value.hpe then true
    else dist(g.value.lat, g.value.lon, cached.value.lat, cached.value.lon) >= g.value.hpe as real
  }

  predicate Eligible(q: Query, cl: Cacheline, dist: Distance) {
    Live(cl) && !ServingCellChanged(q.beacons, cl.beacons) && !CachedGnssWorse(q.gnss, cl.gnss, dist)
  }

  /** If both scans lead with an identified cell, it is the same cell. */
  predicate SameServingCell(s: List, line: List) {
    NumCells(s) > 0 && NumCells(line) > 0
      && s[NumAps(s)].Cell? && s[NumAps(s)].cell.id2 != UNKNOWN_ID2
      && line[NumAps(line)].Cell? && line[NumAps(line)].cell.id2 != UNKNOWN_ID2
    ==> Equal(s[NumAps(s)], line[NumAps(line)])
  }

  /** A request's position, if it has one, is no more accurate than the line's was, and within its own radius of it. */
  predicate PositionAgrees(g: Option<Gnss>, cached: Option<Gnss>, dist: Distance) {
    g.Some? ==>
      && cached.Some? && cached.value.hpe <= g.value.hpe
      && dist(g.value.lat, g.value.lon, cached.value.lat, cached.value.lon) < g.value.hpe as real
  }

  /** What makes a line eligible. */
  lemma {:induction false} EligibleIff(q: Query, cl: Cacheline, dist: Distance)
    requires Invariant(q.beacons) && Invariant(cl.beacons)
    ensures Eligible(q, cl, dist) <==>
            cl.time != CACHE_EMPTY && SameServingCell(q.beacons, cl.beacons) && PositionAgrees(q.gnss, cl.gnss, dist)
  {
    ApsArePrefix(q.beacons);
    ApsArePrefix(cl.beacons);
  }

  // ----- scoring by access points -----

  function MacsOf(s: List): (macs: Scan)
    ensures |macs| == NumAps(s)
  {
    var aps := ApsOf(s);
    seq(|aps|, i requires 0 <= i < |aps| => aps[i].ap.mac)
  }

  ghost function ScoreOf(q: Query, cl: Cacheline): nat {
    Score(MacsOf(q.beacons), MacsOf(cl.beacons))
  }

  /** The size of the union of the two sets of access points, similar ones counted once. */
  ghost function UnionOf(q: Query, cl: Cacheline): (u: nat)
    ensures u >= NumAps(q.beacons) && u >= NumAps(cl.beacons)
  {
    ScoreBounds(MacsOf(q.beacons), MacsOf(cl.beacons));
    NumAps(q.beacons) + NumAps(cl.beacons) - ScoreOf(q, cl)
  }

  /** The threshold for a hit: all of them if the request has few groups. */
  ghost function Threshold(q: Query): nat {
    if UniqueGroups(MacsOf(q.beacons)) <= q.config.beaconThreshold then 99 else q.config.matchAllThreshold
  }

  predicate Comparable(q: Query, cl: Cacheline) {
    NumAps(q.beacons) > 0 && NumAps(cl.beacons) > 0
  }

  /** Exact numbers stand for the source's floats. */
  ghost function Ratio(q: Query, cl: Cacheline): real {
    if Comparable(q, cl) then ScoreOf(q, cl) as real / UnionOf(q, cl) as real else 0.0
  }

  /** The line answers the request: not ruled out, and similar enough. */
  ghost predicate Answers(q: Query, cl: Cacheline, dist: Distance) {
    Eligible(q, cl, dist) && Comparable(q, cl) && 100 * ScoreOf(q, cl) > Threshold(q) * UnionOf(q, cl)
  }

  ghost predicate HasAnswer(q: Query, lines: seq<Cacheline>, dist: Distance) {
    exists i :: 0 <= i < |lines| && Answers(q, lines[i], dist)
  }

  /** How a line fares: whether it is ruled out, and its ratio. */
  datatype Mark = Mark(eligible: bool, ratio: real)

  ghost function Marks(q: Query, lines: seq<Cacheline>, dist: Distance): (m: seq<Mark>)
    ensures |m| == |lines|
    ensures forall i | 0 <= i < |lines| :: m[i] == Mark(Eligible(q, lines[i], dist), Ratio(q, lines[i]))
  {
    seq(|lines|, i requires 0 <= i < |lines| => Mark(Eligible(q, lines[i], dist), Ratio(q, lines[i])))
  }

  /** Among the first n lines the first of the best ratio; -1 if no ratio is positive. */
  ghost predicate IsBest(m: seq<Mark>, n: nat, b: int)
    requires n <= |m|
  {
    if b == -1 then forall k | 0 <= k < n && m[k].eligible :: m[k].ratio <= 0.0
    else
      && 0 <= b < n && m[b].eligible && m[b].ratio > 0.0
      && (forall k | 0 <= k < n && m[k].eligible :: m[k].ratio <= m[b].ratio)
      && (forall k | 0 <= k < b && m[k].eligible :: m[k].ratio < m[b].ratio)
  }

  /** Among the first n lines the first of the worst ratio below 1; -1 if there is none. */
  ghost predicate IsWorst(m: seq<Mark>, n: nat, p: int)
    requires n <= |m|
  {
    if p == -1 then forall k | 0 <= k < n && m[k].eligible :: m[k].ratio >= 1.0
    else
      && 0 <= p < n && m[p].eligible && m[p].ratio < 1.0
      && (forall k | 0 <= k < n && m[k].eligible :: m[p].ratio <= m[k].ratio)
      && (forall k | 0 <= k < p && m[k].eligible :: m[p].ratio < m[k].ratio)
  }

  /** The last empty line among the first n. */
  predicate IsLastEmpty(lines: seq<Cacheline>, n: nat, p: int)
    requires n <= |lines|
  {
    if p == -1 then forall k | 0 <= k < n :: Live(lines[k])
    else 0 <= p < n && !Live(lines[p]) && forall k | p < k < n :: Live(lines[k])
  }

  /** Where a new scan goes: the last empty line if there is one, else the worst match. */
  ghost predicate IsBestPut(q: Query, lines: seq<Cacheline>, dist: Distance, p: int) {
    if exists k :: 0 <= k < |lines| && !Live(lines[k]) then IsLastEmpty(lines, |lines|, p)
    else IsWorst(Marks(q, lines, dist), |lines|, p)
  }

  /** The outcome of a match by access points: the hit flag rises if a line answers and otherwise stays what it was;
      the line to read is the best one on an answer and line 0 otherwise. */
  ghost predicate MatchedByAps(q: Query, lines: seq<Cacheline>, dist: Distance, wasHit: bool,
                               hit: bool, getFrom: int, saveTo: int)
  {
    && hit == (wasHit || HasAnswer(q, lines, dist))
    && (if HasAnswer(q, lines, dist) then getFrom >= 0 && IsBest(Marks(q, lines, dist), |lines|, getFrom)
        else getFrom == 0)
    && IsBestPut(q, lines, dist, saveTo)
  }

  lemma {:induction false} RatioRange(q: Query, cl: Cacheline)
    ensures 0.0 <= Ratio(q, cl) <= 1.0
  {
    ScoreBounds(MacsOf(q.beacons), MacsOf(cl.beacons));
    if Comparable(q, cl) {
      FractionRange(ScoreOf(q, cl), UnionOf(q, cl));
    }
  }

  lemma {:induction false} FractionRange(a: nat, b: nat)
    requires a <= b && b > 0
    ensures 0.0 <= a as real / b as real <= 1.0
  {}

  lemma {:induction false} FractionAbove(a: nat, b: nat, thr: nat)
    requires b > 0
    ensures a as real / b as real * 100.0 > thr as real <==> 100 * a > thr * b
  {
    var r := a as real / b as real;
    assert r * b as real == a as real;
    if r * 100.0 > thr as real {
      assert r * 100.0 * b as real > thr as real * b as real;
    } else {
      assert r * 100.0 * b as real <= thr as real * b as real;
    }
    assert (thr * b) as real == thr as real * b as real;
  }

  lemma {:induction false} AnswersByRatio(q: Query, cl: Cacheline, dist: Distance)
    ensures Answers(q, cl, dist) <==> Eligible(q, cl, dist) && Comparable(q, cl) && Ratio(q, cl) * 100.0 > Threshold(q) as real
  {
    if Comparable(q, cl) {
      FractionAbove(ScoreOf(q, cl), UnionOf(q, cl), Threshold(q));
    }
  }

  /** The best line decides whether any line answers. */
  lemma {:induction false} BestDecides(q: Query, lines: seq<Cacheline>, dist: Distance, b: int)
    requires IsBest(Marks(q, lines, dist), |lines|, b)
    ensures HasAnswer(q, lines, dist) <==> b >= 0 && Answers(q, lines[b], dist)
  {
    if i :| 0 <= i < |lines| && Answers(q, lines[i], dist) {
      AnswersByRatio(q, lines[i], dist);
      assert Marks(q, lines, dist)[i].eligible;
      if b >= 0 {
        AnswersByRatio(q, lines[b], dist);
      }
    }
  }

  lemma {:induction false} BestStep(m: seq<Mark>, i: nat, b: int)
    requires i < |m| && IsBest(m, i, b) && b < i
    ensures IsBest(m, i + 1, if m[i].eligible && m[i].ratio > (if b >= 0 then m[b].ratio else 0.0) then i else b)
  {}

  lemma {:induction false} WorstStep(m: seq<Mark>, i: nat, p: int)
    requires i < |m| && IsWorst(m, i, p) && p < i
    ensures IsWorst(m, i + 1, if m[i].eligible && m[i].ratio < (if p >= 0 then m[p].ratio else 1.0) then i else p)
  {}

  /** What the request context asks of the cache. */
  ghost function Asks(rctx: RequestContext): Query
    requires rctx.Valid()
    reads rctx, rctx.beacon, rctx.session
  {
    Query(rctx.Contents(), rctx.gnss, rctx.time, rctx.session.config)
  }

  /** The first loop of match: empty expired lines and note the last empty one. */
  method ExpireLines(session: SessionContext, q: Query) returns (lastEmpty: int)
    modifies session.cacheline
    ensures session.cacheline[..] == SweptAll(q, old(session.cacheline[..]))
    ensures IsLastEmpty(session.cacheline[..], session.cacheline.Length, lastEmpty)
  {
    ghost var was := session.cacheline[..];
    lastEmpty := -1;
    for i := 0 to session.cacheline.Length
      invariant forall k | 0 <= k < i :: session.cacheline[k] == Swept(q, was[k])
      invariant forall k | i <= k < session.cacheline.Length :: session.cacheline[k] == was[k]
      invariant -1 <= lastEmpty < i
      invariant lastEmpty >= 0 ==> !Live(session.cacheline[lastEmpty])
      invariant forall k | lastEmpty < k < i :: Live(session.cacheline[k])
    {
      if Expired(q, session.cacheline[i]) {
        session.cacheline[i] := session.cacheline[i].(time := CACHE_EMPTY);
      }
      if session.cacheline[i].time == CACHE_EMPTY {
        lastEmpty := i;
      }
    }
    assert session.cacheline[..] == SweptAll(q, was);
  }

  lemma {:induction false} RatioIs(q: Query, cl: Cacheline, score: nat)
    requires score == ScoreOf(q, cl)
    ensures Comparable(q, cl) ==>
              var union := NumAps(q.beacons) + NumAps(cl.beacons) - score;
              union > 0 && Ratio(q, cl) == score as real / union as real
  {
    ScoreBounds(MacsOf(q.beacons), MacsOf(cl.beacons));
  }

  /** The score of one line that is not ruled out. */
  method ScoreLine(q: Query, cl: Cacheline) returns (ratio: real)
    ensures ratio == Ratio(q, cl)
  {
    var macs, cached := MacsOf(q.beacons), MacsOf(cl.beacons);
    var score := CountCachedAps(macs, cached);
    RatioIs(q, cl, score);
    if |macs| > 0 && |cached| > 0 {
      ratio := score as real / (|macs| + |cached| - score) as real;
    } else {
      ratio := 0.0;
    }
  }

  /** The threshold a line that can be compared has to pass. */
  method ChooseThreshold(q: Query, cl: Cacheline) returns (threshold: nat)
    ensures threshold == if Comparable(q, cl) then Threshold(q) else 0
  {
    threshold := 0;
    if Comparable(q, cl) {
      var groups := CountUniqVg(MacsOf(q.beacons));
      threshold := if groups <= q.config.beaconThreshold then 99 else q.config.matchAllThreshold;
    }
  }

  /** The state of the scoring loop. */
  datatype Scores = Scores(best: int, bestRatio: real, bestThreshold: nat, put: int, putRatio: real)

  ghost predicate ScoresAre(m: seq<Mark>, thr: nat, n: nat, lastEmpty: int, r: Scores)
    requires n <= |m|
  {
    && -1 <= r.best < n && IsBest(m, n, r.best)
    && r.bestRatio == (if r.best >= 0 then m[r.best].ratio else 0.0)
    && r.bestThreshold == (if r.best >= 0 then thr else 0)
    && (lastEmpty >= 0 ==> r.put == lastEmpty && r.putRatio == 0.0)
    && (lastEmpty < 0 ==>
          -1 <= r.put < n && IsWorst(m, n, r.put) && r.putRatio == if r.put >= 0 then m[r.put].ratio else 1.0)
  }

  /** Take one more line into account. */
  function Scored(r: Scores, i: nat, ratio: real, threshold: nat): Scores {
    var put := ratio < r.putRatio;
    var best := ratio > r.bestRatio;
    Scores(if best then i else r.best, if best then ratio else r.bestRatio, if best then threshold else r.bestThreshold,
           if put then i else r.put, if put then ratio else r.putRatio)
  }

  lemma {:induction false} ScoredStep(m: seq<Mark>, thr: nat, i: nat, lastEmpty: int, r: Scores, threshold: nat)
    requires i < |m| && ScoresAre(m, thr, i, lastEmpty, r) && 0.0 <= m[i].ratio
    requires m[i].ratio > 0.0 ==> threshold == thr
    ensures ScoresAre(m, thr, i + 1, lastEmpty, if m[i].eligible then Scored(r, i, m[i].ratio, threshold) else r)
  {
    BestStep(m, i, r.best);
    if lastEmpty < 0 {
      WorstStep(m, i, r.put);
    }
  }

  /** The loop body for one line. */
  method ScoreOne(q: Query, ghost lines: seq<Cacheline>, i: nat, cl: Cacheline, dist: Distance, ghost lastEmpty: int,
                  before: Scores)
    returns (r: Scores)
    requires i < |lines| && cl == lines[i]
    requires ScoresAre(Marks(q, lines, dist), Threshold(q), i, lastEmpty, before)
    ensures ScoresAre(Marks(q, lines, dist), Threshold(q), i + 1, lastEmpty, r)
  {
    RatioRange(q, cl);
    r := before;
    if Eligible(q, cl, dist) {
      var ratio := ScoreLine(q, cl);
      var threshold := ChooseThreshold(q, cl);
      ScoredStep(Marks(q, lines, dist), Threshold(q), i, lastEmpty, before, threshold);
      r := Scored(before, i, ratio, threshold);
    } else {
      ScoredStep(Marks(q, lines, dist), Threshold(q), i, lastEmpty, before, Threshold(q));
    }
  }

  /** The second loop of match. */
  method ScoreLines(session: SessionContext, q: Query, dist: Distance, lastEmpty: int) returns (r: Scores)
    ensures ScoresAre(Marks(q, session.cacheline[..], dist), Threshold(q), session.cacheline.Length, lastEmpty, r)
  {
    ghost var lines := session.cacheline[..];
    r := Scores(-1, 0.0, 0, if lastEmpty >= 0 then lastEmpty else -1, if lastEmpty >= 0 then 0.0 else 1.0);
    for i := 0 to session.cacheline.Length
      invariant ScoresAre(Marks(q, lines, dist), Threshold(q), i, lastEmpty, r)
    {
      r := ScoreOne(q, lines, i, session.cacheline[i], dist, lastEmpty, r);
    }
  }

  lemma {:induction false} ScoresDecide(q: Query, lines: seq<Cacheline>, dist: Distance, lastEmpty: int, r: Scores,
                                        wasHit: bool)
    requires -1 <= lastEmpty < |lines| && IsLastEmpty(lines, |lines|, lastEmpty)
    requires ScoresAre(Marks(q, lines, dist), Threshold(q), |lines|, lastEmpty, r)
    ensures var found := r.bestRatio * 100.0 > r.bestThreshold as real;
            MatchedByAps(q, lines, dist, wasHit, wasHit || found, if found then r.best else 0, r.put)
  {
    BestDecides(q, lines, dist, r.best);
    if r.best >= 0 {
      AnswersByRatio(q, lines[r.best], dist);
      assert Marks(q, lines, dist)[r.best].ratio == Ratio(q, lines[r.best]);
    }
  }

  /** The scoring part of match, on what the request asks. */
  method MatchLines(session: SessionContext, q: Query, dist: Distance, lastEmpty: int, wasHit: bool)
    returns (hit: bool, getFrom: int, saveTo: int)
    requires IsLastEmpty(session.cacheline[..], session.cacheline.Length, lastEmpty)
    ensures MatchedByAps(q, session.cacheline[..], dist, wasHit, hit, getFrom, saveTo)
  {
    var r := ScoreLines(session, q, dist, lastEmpty);
    ScoresDecide(q, session.cacheline[..], dist, lastEmpty, r, wasHit);
    saveTo := r.put;
    getFrom := r.best;
    hit := wasHit;
    if r.bestRatio * 100.0 > r.bestThreshold as real {
      hit := true;
    } else {
      getFrom := 0;
    }
  }

  /** match of the access-point plugin; it declines without access points. */
  method MatchAps(rctx: RequestContext, dist: Distance) returns (ok: bool)
    requires rctx.Valid()
    modifies rctx`hit, rctx`getFrom, rctx`saveTo, rctx.session.cacheline
    ensures rctx.Valid() && rctx.Contents() == old(rctx.Contents())
    ensures rctx.session.cacheline[..] == SweptAll(Asks(rctx), old(rctx.session.cacheline[..]))
    ensures ok == (rctx.numAp > 0)
    ensures !ok ==> rctx.hit == old(rctx.hit) && rctx.getFrom == old(rctx.getFrom) && rctx.saveTo == old(rctx.saveTo)
    ensures ok ==> MatchedByAps(Asks(rctx), rctx.session.cacheline[..], dist, old(rctx.hit),
                                rctx.hit, rctx.getFrom, rctx.saveTo)
  {
    var q := Query(rctx.beacon[..rctx.numBeacons], rctx.gnss, rctx.time, rctx.session.config);
    var lastEmpty := ExpireLines(rctx.session, q);
    ok := rctx.numAp > 0;
    if ok {
      var hit, getFrom, saveTo := MatchLines(rctx.session, q, dist, lastEmpty, rctx.hit);
      rctx.hit, rctx.getFrom, rctx.saveTo := hit, getFrom, saveTo;
    }
    assert Asks(rctx) == q;
  }

  // ----- matching by cells -----

  /** Every cell of the request is found in the line. */
  predicate AllCellsFound(q: Query, cl: Cacheline) {
    forall i | NumAps(q.beacons) <= i < |q.beacons| :: FoundIn(cl, q.beacons[i])
  }

  predicate CellsAnswer(q: Query, cl: Cacheline, dist: Distance) {
    Eligible(q, cl, dist) && AllCellsFound(q, cl)
  }

  /** The first of the first n lines with a property, -1 if none has it. */
  ghost predicate IsFirst(has: seq<bool>, n: nat, b: int)
    requires n <= |has|
  {
    if b == -1 then forall k | 0 <= k < n :: !has[k] else 0 <= b < n && has[b] && forall k | 0 <= k < b :: !has[k]
  }

  ghost function Empties(lines: seq<Cacheline>): (e: seq<bool>)
    ensures |e| == |lines| && forall i | 0 <= i < |lines| :: e[i] == !Live(lines[i])
  {
    seq(|lines|, i requires 0 <= i < |lines| => !Live(lines[i]))
  }

  ghost function CellMarks(q: Query, lines: seq<Cacheline>, dist: Distance): (m: seq<bool>)
    ensures |m| == |lines| && forall i | 0 <= i < |lines| :: m[i] == CellsAnswer(q, lines[i], dist)
  {
    seq(|lines|, i requires 0 <= i < |lines| => CellsAnswer(q, lines[i], dist))
  }

  /** The outcome of a match by cells: read the first line that has them all, store to the first empty line or else to
      that one. */
  ghost predicate MatchedByCells(q: Query, lines: seq<Cacheline>, dist: Distance, hit: bool, getFrom: int, saveTo: int) {
    && IsFirst(CellMarks(q, lines, dist), |lines|, getFrom)
    && hit == (getFrom >= 0 && 100 > q.config.matchAllThreshold)
    && if exists k :: 0 <= k < |lines| && !Live(lines[k]) then IsFirst(Empties(lines), |lines|, saveTo)
       else saveTo == getFrom
  }

  /** Count the cells of the request found in a line. */
  method CountCells(q: Query, cl: Cacheline) returns (all: bool)
    ensures all == AllCellsFound(q, cl)
  {
    var score, numAp := 0, NumAps(q.beacons);
    for j := numAp to |q.beacons|
      invariant score <= j - numAp
      invariant score == j - numAp <==> forall k | numAp <= k < j :: FoundIn(cl, q.beacons[k])
    {
      var found, _ := BeaconInCacheline(q.beacons[j], cl);
      if found {
        score := score + 1;
      }
    }
    all := score == NumCells(q.beacons);
  }

  /** The first loop of the cell plugin's match: empty expired lines and note the first empty one. */
  method ExpireLinesForCells(session: SessionContext, q: Query) returns (firstEmpty: int)
    modifies session.cacheline
    ensures session.cacheline[..] == SweptAll(q, old(session.cacheline[..]))
    ensures IsFirst(Empties(session.cacheline[..]), session.cacheline.Length, firstEmpty)
  {
    ghost var was := session.cacheline[..];
    firstEmpty := -1;
    for i := 0 to session.cacheline.Length
      invariant forall k | 0 <= k < i :: session.cacheline[k] == Swept(q, was[k])
      invariant forall k | i <= k < session.cacheline.Length :: session.cacheline[k] == was[k]
      invariant -1 <= firstEmpty < i
      invariant firstEmpty >= 0 ==> !Live(session.cacheline[firstEmpty])
      invariant forall k | 0 <= k < (if firstEmpty >= 0 then firstEmpty else i) :: Live(session.cacheline[k])
    {
      if Expired(q, session.cacheline[i]) {
        session.cacheline[i] := session.cacheline[i].(time := CACHE_EMPTY);
      }
      if session.cacheline[i].time == CACHE_EMPTY && firstEmpty < 0 {
        firstEmpty := i;
      }
    }
    assert session.cacheline[..] == SweptAll(q, was);
  }

  /** The second loop of the cell plugin's match. */
  method FirstWithCells(session: SessionContext, q: Query, dist: Distance) returns (best: int)
    ensures IsFirst(CellMarks(q, session.cacheline[..], dist), session.cacheline.Length, best)
  {
    best := -1;
    ghost var lines := session.cacheline[..];
    for i := 0 to session.cacheline.Length
      invariant -1 <= best < i && IsFirst(CellMarks(q, lines, dist), i, best)
    {
      var cl := session.cacheline[i];
      assert cl == lines[i];
      if Eligible(q, cl, dist) {
        var all := CountCells(q, cl);
        if all && best < 0 {
          best := i;
        }
      }
    }
  }

  method MatchLinesByCells(session: SessionContext, q: Query, dist: Distance, firstEmpty: int)
    returns (hit: bool, getFrom: int, saveTo: int)
    requires IsFirst(Empties(session.cacheline[..]), session.cacheline.Length, firstEmpty)
    ensures MatchedByCells(q, session.cacheline[..], dist, hit, getFrom, saveTo)
  {
    getFrom := FirstWithCells(session, q, dist);
    saveTo := if firstEmpty >= 0 then firstEmpty else getFrom;
    hit := getFrom >= 0 && 100 > q.config.matchAllThreshold;
    ghost var lines := session.cacheline[..];
    if k :| 0 <= k < |lines| && !Live(lines[k]) {
      assert Empties(lines)[k];
    }
  }

  /** match of the cell plugin; it declines without cells. Unlike the other it clears the hit flag on a miss. */
  method MatchCells(rctx: RequestContext, dist: Distance) returns (ok: bool)
    requires rctx.Valid()
    modifies rctx`hit, rctx`getFrom, rctx`saveTo, rctx.session.cacheline
    ensures rctx.Valid() && rctx.Contents() == old(rctx.Contents())
    ensures rctx.session.cacheline[..] == SweptAll(Asks(rctx), old(rctx.session.cacheline[..]))
    ensures ok == (rctx.numAp < rctx.numBeacons)
    ensures !ok ==> rctx.hit == old(rctx.hit) && rctx.getFrom == old(rctx.getFrom) && rctx.saveTo == old(rctx.saveTo)
    ensures ok ==> MatchedByCells(Asks(rctx), rctx.session.cacheline[..], dist, rctx.hit, rctx.getFrom, rctx.saveTo)
  {
    var q := Query(rctx.beacon[..rctx.numBeacons], rctx.gnss, rctx.time, rctx.session.config);
    var firstEmpty := ExpireLinesForCells(rctx.session, q);
    ok := rctx.numAp < rctx.numBeacons;
    if ok {
      var hit, getFrom, saveTo := MatchLinesByCells(rctx.session, q, dist, firstEmpty);
      rctx.hit, rctx.getFrom, rctx.saveTo := hit, getFrom, saveTo;
    }
    assert Asks(rctx) == q;
  }

  // ----- searching -----

  lemma {:induction false} SweepingTwice(q: Query, lines: seq<Cacheline>)
    ensures SweptAll(q, SweptAll(q, lines)) == SweptAll(q, lines)
  {}

  /** The outcome of a search, by what the request holds. */
  ghost predicate Searched(q: Query, before: seq<Cacheline>, lines: seq<Cacheline>, dist: Distance, wasHit: bool,
                           wasSaveTo: int, hit: bool, getFrom: int, saveTo: int)
  {
    && lines == (if q.time < TIMESTAMP_2019_03_01 then before else SweptAll(q, before))
    && if q.time < TIMESTAMP_2019_03_01 || q.beacons == [] then !hit && getFrom == -1 && saveTo == wasSaveTo
       else if NumAps(q.beacons) > 0 then MatchedByAps(q, lines, dist, wasHit, hit, getFrom, saveTo)
       else MatchedByCells(q, lines, dist, hit, getFrom, saveTo)
  }

  /** search_cache with sky_plugin_match_cache: no search under a bad clock, access points first, then cells. */
  method SearchCache(rctx: RequestContext, dist: Distance) returns (hit: bool)
    requires rctx.Valid() && rctx.session.cacheline.Length >= 1
    modifies rctx`hit, rctx`getFrom, rctx`saveTo, rctx.session.cacheline
    ensures rctx.Valid() && rctx.Contents() == old(rctx.Contents()) && hit == rctx.hit
    ensures Searched(Asks(rctx), old(rctx.session.cacheline[..]), rctx.session.cacheline[..], dist, old(rctx.hit),
                     old(rctx.saveTo), rctx.hit, rctx.getFrom, rctx.saveTo)
  {
    var ok := false;
    if rctx.time >= TIMESTAMP_2019_03_01 {
      ghost var was := rctx.session.cacheline[..];
      ok := MatchAps(rctx, dist);
      if !ok {
        SweepingTwice(Asks(rctx), was);
        ok := MatchCells(rctx, dist);
      }
    }
    if !ok {
      rctx.getFrom := -1;
      rctx.hit := false;
    }
    return rctx.hit;
  }

  // ----- storing -----

  /** The line to reuse: line 0 without a clock, else the first empty line, else the first of the oldest lines if they
      are older than the request, else line 0. */
  ghost predicate IsReused(lines: seq<Cacheline>, time: Uint32, i: nat) {
    && i < |lines|
    && if time == TIME_UNAVAILABLE then i == 0
       else if exists k :: 0 <= k < |lines| && !Live(lines[k]) then IsFirst(Empties(lines), |lines|, i)
       else if exists k :: 0 <= k < |lines| && lines[k].time < time then
         (forall k | 0 <= k < |lines| :: lines[i].time <= lines[k].time)
         && (forall k | 0 <= k < i :: lines[i].time < lines[k].time)
       else i == 0
  }

  /** find_oldest. */
  method FindOldestLine(session: SessionContext, time: Uint32) returns (oldestc: nat)
    requires session.cacheline.Length >= 1
    ensures IsReused(session.cacheline[..], time, oldestc)
  {
    ghost var lines := session.cacheline[..];
    oldestc := 0;
    var oldest: int := time;
    for i := 0 to session.cacheline.Length
      invariant oldestc < |lines| && (i > 0 ==> time != TIME_UNAVAILABLE)
      invariant forall k | 0 <= k < i :: Live(lines[k]) && oldest <= lines[k].time
      invariant (oldest == time && oldestc == 0)
                || (oldestc < i && oldest == lines[oldestc].time < time
                    && forall k | 0 <= k < oldestc :: oldest < lines[k].time)
      invariant i > 0 ==> oldest != TIME_UNAVAILABLE
    {
      assert lines[i] == session.cacheline[i];
      if oldest == TIME_UNAVAILABLE || session.cacheline[i].time == CACHE_EMPTY {
        assert time != TIME_UNAVAILABLE ==> !Live(lines[i]);
        return i;
      } else if session.cacheline[i].time - oldest < 0 {
        oldest := session.cacheline[i].time;
        oldestc := i;
      }
    }
  }

  /** Where a scan is stored: where the search said, else in the line to reuse. */
  ghost predicate StoredAt(lines: seq<Cacheline>, saveTo: int, time: Uint32, i: nat) {
    if saveTo >= 0 then i == saveTo else IsReused(lines, time, i)
  }

  /** to_cache: a located scan is stored, an unlocated one clears its line, and a bad clock stores nothing. */
  method ToCache(rctx: RequestContext, loc: Location) returns (ok: bool, ghost at: nat)
    requires rctx.Valid() && rctx.session.cacheline.Length >= 1 && rctx.saveTo < rctx.session.cacheline.Length
    modifies rctx.session.cacheline
    ensures ok == (loc.time > TIMESTAMP_2019_03_01 && loc.status == Success)
    ensures loc.time <= TIMESTAMP_2019_03_01 ==> rctx.session.cacheline[..] == old(rctx.session.cacheline[..])
    ensures loc.time > TIMESTAMP_2019_03_01 ==>
              var was := old(rctx.session.cacheline[..]);
              && at < |was| && StoredAt(was, rctx.saveTo, rctx.time, at)
              && rctx.session.cacheline[..] ==
                 was[at := if ok then Cacheline(loc.time, rctx.Contents(), rctx.gnss, loc)
                           else was[at].(time := CACHE_EMPTY)]
  {
    at := 0;
    if loc.time <= TIMESTAMP_2019_03_01 {
      return false, at;
    }
    var i := rctx.saveTo;
    if i < 0 {
      i := FindOldestLine(rctx.session, rctx.time);
    }
    at := i;
    ok := loc.status == Success;
    if ok {
      rctx.session.cacheline[i] := Cacheline(loc.time, rctx.beacon[..rctx.numBeacons], rctx.gnss, loc);
    } else {
      rctx.session.cacheline[i] := rctx.session.cacheline[i].(time := CACHE_EMPTY);
    }
  }

  // ----- nothing is left open -----

  lemma {:induction false} BestIsUnique(m: seq<Mark>, n: nat, b: int, c: int)
    requires n <= |m| && IsBest(m, n, b) && IsBest(m, n, c)
    ensures b == c
  {}

  lemma {:induction false} WorstIsUnique(m: seq<Mark>, n: nat, b: int, c: int)
    requires n <= |m| && IsWorst(m, n, b) && IsWorst(m, n, c)
    ensures b == c
  {}

  lemma {:induction false} LastEmptyIsUnique(lines: seq<Cacheline>, n: nat, b: int, c: int)
    requires n <= |lines| && IsLastEmpty(lines, n, b) && IsLastEmpty(lines, n, c)
    ensures b == c
  {}

  lemma {:induction false} FirstIsUnique(has: seq<bool>, n: nat, b: int, c: int)
    requires n <= |has| && IsFirst(has, n, b) && IsFirst(has, n, c)
    ensures b == c
  {}

  lemma {:induction false} ReusedIsUnique(lines: seq<Cacheline>, time: Uint32, i: nat, j: nat)
    requires IsReused(lines, time, i) && IsReused(lines, time, j)
    ensures i == j
  {
    if exists k :: 0 <= k < |lines| && !Live(lines[k]) {
      if time != TIME_UNAVAILABLE {
        FirstIsUnique(Empties(lines), |lines|, i, j);
      }
    }
  }

  /** There is one outcome of a search, and one line a scan is stored in. */
  lemma {:induction false} SearchIsDetermined(q: Query, before: seq<Cacheline>, lines: seq<Cacheline>, dist: Distance,
                                              wasHit: bool, wasSaveTo: int, hit: bool, getFrom: int, saveTo: int,
                                              hit': bool, getFrom': int, saveTo': int)
    requires Searched(q, before, lines, dist, wasHit, wasSaveTo, hit, getFrom, saveTo)
    requires Searched(q, before, lines, dist, wasHit, wasSaveTo, hit', getFrom', saveTo')
    ensures hit == hit' && getFrom == getFrom' && saveTo == saveTo'
  {
    if q.time >= TIMESTAMP_2019_03_01 && q.beacons != [] {
      if NumAps(q.beacons) > 0 {
        ApMatchIsDetermined(q, lines, dist, wasHit, hit, getFrom, saveTo, hit', getFrom', saveTo');
      } else {
        CellMatchIsDetermined(q, lines, dist, hit, getFrom, saveTo, hit', getFrom', saveTo');
      }
    }
  }

  lemma {:induction false} ApMatchIsDetermined(q: Query, lines: seq<Cacheline>, dist: Distance, wasHit: bool, hit: bool,
                                               getFrom: int, saveTo: int, hit': bool, getFrom': int, saveTo': int)
    requires MatchedByAps(q, lines, dist, wasHit, hit, getFrom, saveTo)
    requires MatchedByAps(q, lines, dist, wasHit, hit', getFrom', saveTo')
    ensures hit == hit' && getFrom == getFrom' && saveTo == saveTo'
  {
    var m := Marks(q, lines, dist);
    if HasAnswer(q, lines, dist) {
      BestIsUnique(m, |lines|, getFrom, getFrom');
    }
    if exists k :: 0 <= k < |lines| && !Live(lines[k]) {
      LastEmptyIsUnique(lines, |lines|, saveTo, saveTo');
    } else {
      WorstIsUnique(m, |lines|, saveTo, saveTo');
    }
  }

  lemma {:induction false} CellMatchIsDetermined(q: Query, lines: seq<Cacheline>, dist: Distance, hit: bool,
                                                 getFrom: int, saveTo: int, hit': bool, getFrom': int, saveTo': int)
    requires MatchedByCells(q, lines, dist, hit, getFrom, saveTo)
    requires MatchedByCells(q, lines, dist, hit', getFrom', saveTo')
    ensures hit == hit' && getFrom == getFrom' && saveTo == saveTo'
  {
    FirstIsUnique(CellMarks(q, lines, dist), |lines|, getFrom, getFrom');
    if exists k :: 0 <= k < |lines| && !Live(lines[k]) {
      FirstIsUnique(Empties(lines), |lines|, saveTo, saveTo');
    }
  }

  // ----- what a hit means -----

  lemma {:induction false} FullScore(req: Scan, line: Scan)
    requires Score(req, line) >= |req| + |line| - Score(req, line)
    ensures Score(req, line) == |req| == |line|
  {
    FullScoreIsPerfect(req, line);
  }

  lemma {:induction false} FractionOne(a: nat, b: nat)
    requires a == b > 0
    ensures a as real / b as real == 1.0
  {}

  lemma {:induction false} PerfectRatio(q: Query, cl: Cacheline)
    requires Comparable(q, cl) && ScoreOf(q, cl) >= UnionOf(q, cl)
    ensures ScoreOf(q, cl) == NumAps(q.beacons) == NumAps(cl.beacons) && Ratio(q, cl) == 1.0
  {
    FullScore(MacsOf(q.beacons), MacsOf(cl.beacons));
    RatioIs(q, cl, ScoreOf(q, cl));
    FractionOne(ScoreOf(q, cl), NumAps(q.beacons));
  }

  /** With few groups a hit needs all access points on both sides, because unions have at most 40. */
  lemma {:induction false} FewGroupsNeedAll(q: Query, cl: Cacheline, dist: Distance)
    requires Answers(q, cl, dist) && UniqueGroups(MacsOf(q.beacons)) <= q.config.beaconThreshold
    requires NumAps(q.beacons) <= MAX_AP_BEACONS && NumAps(cl.beacons) <= MAX_AP_BEACONS
    ensures ScoreOf(q, cl) == NumAps(q.beacons) == NumAps(cl.beacons)
  {
    var s, u := ScoreOf(q, cl), UnionOf(q, cl);
    assert 100 * s > 99 * u && u <= 40;
    PerfectRatio(q, cl);
  }

  /** A scan is not ruled out by its own copy. */
  lemma {:induction false} OwnCellKept(s: List)
    requires Invariant(s)
    ensures !ServingCellChanged(s, s)
  {
    if NumCells(s) > 0 {
      var w := s[NumAps(s)];
      assert ValidBeacon(w);
      EqualIsPartialEquivalence(w, w, w);
    }
  }

  /** The request's position is not better than the line's copy of it: distance zero lies within its radius. */
  predicate OwnPositionAccepted(g: Option<Gnss>, dist: Distance) {
    g.Some? ==> dist(g.value.lat, g.value.lon, g.value.lat, g.value.lon) < g.value.hpe as real
  }

  lemma {:induction false} OwnCopyAnswers(q: Query, cl: Cacheline, dist: Distance)
    requires Invariant(q.beacons) && NumAps(q.beacons) > 0 && q.config.matchAllThreshold < 100
    requires Live(cl) && cl.beacons == q.beacons && cl.gnss == q.gnss && OwnPositionAccepted(q.gnss, dist)
    ensures Answers(q, cl, dist) && Ratio(q, cl) == 1.0
  {
    OwnCellKept(q.beacons);
    CopyScoresFully(MacsOf(q.beacons));
    PerfectRatio(q, cl);
    UnionScaled(Threshold(q), UnionOf(q, cl));
  }

  lemma {:induction false} UnionScaled(thr: nat, u: nat)
    requires thr < 100 && u > 0
    ensures 100 * u > thr * u
  {}

  lemma {:induction false} RatioOne(q: Query, cl: Cacheline)
    requires Ratio(q, cl) >= 1.0
    ensures Comparable(q, cl) && ScoreOf(q, cl) >= UnionOf(q, cl)
  {
    var s, u := ScoreOf(q, cl), UnionOf(q, cl);
    assert s as real / u as real * u as real == s as real;
    if s < u {
      FractionBelowOne(s, u);
    }
  }

  lemma {:induction false} FractionBelowOne(a: nat, b: nat)
    requires a < b
    ensures a as real / b as real < 1.0
  {}

  /** Store, then search: with the scan of the request stored in line i and not expired, a search by its access points
      always answers, and the line it reads pairs perfectly with the request. */
  lemma {:induction false} StoreThenSearch(q: Query, lines: seq<Cacheline>, dist: Distance, i: nat,
                                           wasHit: bool, hit: bool, getFrom: int, saveTo: int)
    requires Invariant(q.beacons) && NumAps(q.beacons) > 0 && q.config.matchAllThreshold < 100
    requires i < |lines| && Live(lines[i]) && !Expired(q, lines[i])
    requires lines[i].beacons == q.beacons && lines[i].gnss == q.gnss && OwnPositionAccepted(q.gnss, dist)
    requires MatchedByAps(q, SweptAll(q, lines), dist, wasHit, hit, getFrom, saveTo)
    ensures hit && 0 <= getFrom < |lines|
    ensures var cl := SweptAll(q, lines)[getFrom];
            ScoreOf(q, cl) == NumAps(q.beacons) == NumAps(cl.beacons)
  {
    var swept := SweptAll(q, lines);
    OwnCopyAnswers(q, swept[i], dist);
    assert HasAnswer(q, swept, dist);
    assert Marks(q, swept, dist)[i].ratio == 1.0 && Marks(q, swept, dist)[i].eligible;
    RatioOne(q, swept[getFrom]);
    PerfectRatio(q, swept[getFrom]);
  }

  /** After a search by access points, whatever the stored scans and positions, the flag says whether a line answers. */
  ghost predicate FlagIsTruthful(q: Query, wasHit: bool, size: nat) {
    forall lines: seq<Cacheline>, dist: Distance, hit: bool, getFrom: int, saveTo: int
      | |lines| == size && MatchedByAps(q, lines, dist, wasHit, hit, getFrom, saveTo)
      :: hit <==> HasAnswer(q, lines, dist)
  }

  /** A caller can rely on the flag exactly if it was clear before the search: whatever the query and the size of the
      cache, a set flag survives a search of empty lines. */
  lemma {:induction false} StaleHit(q: Query, wasHit: bool, size: nat)
    requires size >= 1
    ensures FlagIsTruthful(q, wasHit, size) <==> !wasHit
  {
    if wasHit {
      var dist: Distance := (a, b, c, d) => 0.0;
      var empty := Cacheline(CACHE_EMPTY, [], None, Location(Success, 0, 0.0, 0.0, 0));
      var lines := seq(size, _ => empty);
      EmptyLinesMiss(q, lines, dist);
      assert MatchedByAps(q, lines, dist, wasHit, true, 0, size - 1);
    }
  }

  lemma {:induction false} EmptyLinesMiss(q: Query, lines: seq<Cacheline>, dist: Distance)
    requires |lines| >= 1 && forall i | 0 <= i < |lines| :: !Live(lines[i])
    ensures !HasAnswer(q, lines, dist) && IsBestPut(q, lines, dist, |lines| - 1)
  {
    assert !Live(lines[0]);
  }

  /** What the request reads: a line that answers if there is one; otherwise line 0, and only a flag set before can
      still be set. */
  lemma {:induction false} LineRead(q: Query, lines: seq<Cacheline>, dist: Distance, wasHit: bool, hit: bool,
                                    getFrom: int, saveTo: int)
    requires MatchedByAps(q, lines, dist, wasHit, hit, getFrom, saveTo)
    ensures HasAnswer(q, lines, dist) ==> hit && 0 <= getFrom < |lines| && Answers(q, lines[getFrom], dist)
    ensures !HasAnswer(q, lines, dist) ==> hit == wasHit && getFrom == 0
  {
    if HasAnswer(q, lines, dist) {
      BestDecides(q, lines, dist, getFrom);
    }
  }
}
