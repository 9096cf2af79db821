/** The session and request contexts (libel/beacons.h). */
module Contexts {
  import opened Beacons
  import opened Prelude
  import opened RequestList
  import opened Filtering
  import opened Auth

  /** A position; a context without one has none. */
  datatype Gnss = Gnss(lat: real, lon: real, hpe: nat)

  datatype Location = Location(status: LocationStatus, time: int, lat: real, lon: real, hpe: nat)

  /** A stored scan and the server's answer to it. Time 0 marks an empty line, whatever else it holds. */
  datatype Cacheline = Cacheline(time: int, beacons: List, gnss: Option<Gnss>, loc: Location)

  const CACHE_EMPTY: int := 0

  predicate Live(cl: Cacheline) {
    cl.time != CACHE_EMPTY
  }

  /** The tunable parameters. */
  datatype Config = Config(policy: Policy, matchAllThreshold: Uint32, beaconThreshold: Uint32, ageThreshold: Uint32)

  class SessionContext {
    var openFlag: bool
    var sku: string
    var tokenId: Int32
    var backoff: Backoff
    var time: Uint32
    var config: Config
    var cacheHits: nat
    const cacheline: array<Cacheline>

    constructor (sku: string, config: Config, time: Uint32, cacheSize: nat)
      requires cacheSize >= 1
      ensures openFlag && this.sku == sku && tokenId == TBR_TOKEN_UNKNOWN && backoff == NoBackoff
      ensures this.config == config && this.time == time && cacheHits == 0
      ensures fresh(cacheline) && cacheline.Length == cacheSize
      ensures forall i | 0 <= i < cacheSize :: !Live(cacheline[i]) && cacheline[i].beacons == []
    {
      openFlag, this.sku, tokenId, backoff := true, sku, TBR_TOKEN_UNKNOWN, NoBackoff;
      this.config, this.time, cacheHits := config, time, 0;
      var none := Location(UnableToLocate, 0, 0.0, 0.0, 0);
      cacheline := new Cacheline[cacheSize](_ => Cacheline(CACHE_EMPTY, [], None, none));
    }

    /** The fields the authentication protocol works on. */
    function AuthView(): Session
      reads this
    {
      Session(sku, tokenId, backoff, time)
    }
  }

  class RequestContext {
    const session: SessionContext
    const beacon: array<Beacon>
    var numBeacons: nat
    var numAp: nat
    var gnss: Option<Gnss>
    var time: Uint32
    var hit: bool
    var getFrom: int
    var saveTo: int
    var auth: TbrState

    /** The array has one slot more than the limit, and the counters agree with its contents. */
    ghost predicate Valid()
      reads this, beacon
    {
      && beacon.Length == TOTAL_BEACONS + 1
      && numBeacons <= beacon.Length
      && numAp == NumAps(beacon[..numBeacons])
    }

    ghost function Contents(): (s: List)
      requires Valid()
      reads this, beacon
      ensures |s| == numBeacons
    {
      beacon[..numBeacons]
    }

    /** An empty request. */
    constructor (session: SessionContext, time: Uint32)
      ensures Valid() && Contents() == [] && fresh(beacon)
      ensures this.session == session && this.time == time && auth == StartState(session.AuthView())
      ensures !hit && getFrom == -1 && saveTo == -1 && gnss == None
    {
      this.session, this.time := session, time;
      auth := StartState(session.AuthView());
      hit, getFrom, saveTo, gnss := false, -1, -1, None;
      numBeacons, numAp := 0, 0;
      beacon := new Beacon[TOTAL_BEACONS + 1](_ => Other(Header(0, -1, false)));
    }
  }
}
