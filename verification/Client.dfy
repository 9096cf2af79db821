/** The calls of the library on its contexts (libel/libel.c): each is a step of the client's runs, and on the
    authentication fields a step of the protocol. */
module Client {
  import Macs
  import opened Beacons
  import opened Prelude
  import opened RequestList
  import opened Filtering
  import opened Auth
  import opened Contexts
  import opened Requests
  import opened ScanCache
  import opened ClientRuns
  import opened ProtocolBuffers
  import opened BeaconWire

  /** The state of a run, read off the contexts. */
  ghost function WorldOf(rctx: RequestContext): World
    requires rctx.Valid()
    reads rctx, rctx.beacon, rctx.session, rctx.session.cacheline
  {
    World(rctx.session.config, rctx.session.cacheline[..], rctx.session.cacheHits,
          Some(Ongoing(rctx.Contents(), rctx.gnss, rctx.time, rctx.hit, rctx.getFrom, rctx.saveTo)))
  }

  ghost function SessionWorld(session: SessionContext): World
    reads session, session.cacheline
  {
    World(session.config, session.cacheline[..], session.cacheHits, None)
  }

  /** The context is as the library's calls leave it. */
  ghost predicate Usable(rctx: RequestContext)
    reads rctx, rctx.beacon, rctx.session, rctx.session.cacheline
  {
    rctx.Valid() && Ready(WorldOf(rctx))
  }

  /** sky_open of a fresh session: the first state of a client's run, and of a run of the authentication protocol. */
  method SkyOpen(sku: string, config: Config, time: Uint32, cacheSize: nat) returns (session: SessionContext)
    requires cacheSize >= 1 && Sound(config.policy)
    ensures fresh(session) && fresh(session.cacheline) && session.openFlag
    ensures Opened(SessionWorld(session)) && session.config == config && session.cacheline.Length == cacheSize
    ensures session.AuthView() == Initial(sku, time).session
  {
    session := new SessionContext(sku, config, time, cacheSize);
  }

  datatype StartStatus = Begun | NotOpen | ServiceDenied

  /** The loop of sky_new_request over the stored scans. */
  method RefreshLines(session: SessionContext, now: Uint32)
    modifies session.cacheline
    ensures session.cacheline[..] == RefreshedAll(session.config, now, old(session.cacheline[..]))
  {
    ghost var was := session.cacheline[..];
    var bad := now < TIMESTAMP_2019_03_01;
    for i := 0 to session.cacheline.Length
      invariant forall k | 0 <= k < i :: session.cacheline[k] == Refreshed(session.config, now, was[k])
      invariant forall k | i <= k < session.cacheline.Length :: session.cacheline[k] == was[k]
    {
      var limits := session.config.policy.limits;
      if NumAps(session.cacheline[i].beacons) > limits.maxApBeacons
         || |session.cacheline[i].beacons| > limits.totalBeacons
      {
        session.cacheline[i] := session.cacheline[i].(time := CACHE_EMPTY);
      }
      if session.cacheline[i].time != CACHE_EMPTY && bad {
        session.cacheline[i] := session.cacheline[i].(time := CACHE_EMPTY);
      } else if session.cacheline[i].time != CACHE_EMPTY && now - session.cacheline[i].time > AgeLimit(session.config) {
        session.cacheline[i] := session.cacheline[i].(time := CACHE_EMPTY);
      }
    }
    assert session.cacheline[..] == RefreshedAll(session.config, now, was);
  }

  /** sky_new_request. */
  method SkyNewRequest(session: SessionContext, now: Uint32) returns (rctx: RequestContext?, status: StartStatus)
    requires Ready(SessionWorld(session))
    modifies session.cacheline
    ensures status == (if !session.openFlag then NotOpen
                       else if NewRequest(session.AuthView(), now).None? then ServiceDenied else Begun)
    ensures session.openFlag && now >= TIMESTAMP_2019_03_01 ==>
              (status == Begun <==> Over(session.backoff, now - session.time))
    ensures rctx == null <==> status != Begun
    ensures rctx != null ==>
              && fresh(rctx) && fresh(rctx.beacon) && rctx.session == session && rctx.Valid()
              && Some(Request(rctx.time, rctx.auth)) == NewRequest(session.AuthView(), now)
              && WorldOf(rctx) == Started(old(SessionWorld(session)), now)
    ensures rctx == null ==> session.cacheline[..] == old(session.cacheline[..])
  {
    if !session.openFlag {
      return null, NotOpen;
    }
    AdmittedIff(session.AuthView(), now);
    if Violation(session.AuthView(), if now < TIMESTAMP_2019_03_01 then TIME_UNAVAILABLE else now) {
      return null, ServiceDenied;
    }
    rctx := new RequestContext(session, now);
    RefreshLines(session, now);
    status := Begun;
  }

  /** The sky_add calls for beacons. */
  method SkyAddBeacon(rctx: RequestContext, b: Beacon, timestamp: int) returns (status: Status)
    requires Usable(rctx)
    modifies rctx`numBeacons, rctx`numAp, rctx.beacon
    ensures Usable(rctx)
    ensures rctx.session.openFlag ==> AddedTo(old(WorldOf(rctx)), b, timestamp, WorldOf(rctx))
    ensures !rctx.session.openFlag ==> WorldOf(rctx) == old(WorldOf(rctx))
    ensures status == match Prepare(rctx.session.openFlag, rctx.time, b, timestamp)
                      case Accept(_) => Added
                      case Reject(why) => why
  {
    ghost var w := WorldOf(rctx);
    status := AddBeacon(rctx, b, timestamp);
    if rctx.session.openFlag {
      AddKeeps(w, b, timestamp, WorldOf(rctx));
    }
  }

  /** sky_search_cache: the stored location on a hit; a miss clears the flag and the count of hits. */
  method SkySearchCache(rctx: RequestContext, dist: Distance) returns (loc: Option<Location>)
    requires Usable(rctx)
    modifies rctx`hit, rctx`getFrom, rctx`saveTo, rctx.session`cacheHits, rctx.session.cacheline
    ensures Usable(rctx) && SearchedTo(old(WorldOf(rctx)), dist, WorldOf(rctx))
    ensures loc.Some? == rctx.hit
    ensures rctx.hit ==> 0 <= rctx.getFrom < rctx.session.cacheline.Length
                         && loc == Some(rctx.session.cacheline[rctx.getFrom].loc)
  {
    ghost var w := WorldOf(rctx);
    ghost var r := w.request.value;
    var _ := SearchCache(rctx, dist);
    ResultInRange(QueryOf(w), w.lines, rctx.session.cacheline[..], dist, r.hit, r.saveTo,
                  rctx.hit, rctx.getFrom, rctx.saveTo);
    if rctx.getFrom != -1 && rctx.hit {
      loc := Some(rctx.session.cacheline[rctx.getFrom].loc);
    } else {
      rctx.hit := false;
      rctx.session.cacheHits := 0;
      loc := None;
    }
    SearchKeeps(w, dist, WorldOf(rctx));
  }

  /** The part of sky_sizeof_request_buf that decides what the request holds. */
  method SkySizeofRequest(rctx: RequestContext)
    requires Usable(rctx)
    modifies rctx`numBeacons, rctx`numAp, rctx`gnss, rctx`getFrom, rctx.beacon, rctx.session`cacheHits
    ensures Usable(rctx) && WorldOf(rctx) == Sized(old(WorldOf(rctx)))
  {
    ghost var w := WorldOf(rctx);
    StepKeepsReady(w, Size, (a, b, c, d) => 0.0, Sized(w));
    if rctx.getFrom != -1 && rctx.hit {
      if rctx.session.cacheHits < MAX_CACHE_HITS {
        rctx.session.cacheHits := rctx.session.cacheHits + 1;
        Substitute(rctx, rctx.session.cacheline[rctx.getFrom]);
      } else {
        rctx.getFrom := -1;
        rctx.session.cacheHits := 0;
      }
    }
  }

  /** Overwrite the beacons of the request with stored ones. */
  method Substitute(rctx: RequestContext, cl: Cacheline)
    requires rctx.Valid() && HasRoom(cl.beacons)
    modifies rctx`numBeacons, rctx`numAp, rctx`gnss, rctx.beacon
    ensures rctx.Valid() && rctx.Contents() == cl.beacons && rctx.gnss == cl.gnss
  {
    rctx.numBeacons, rctx.numAp := |cl.beacons|, NumAps(cl.beacons);
    for j := 0 to rctx.numBeacons
      invariant rctx.beacon[..j] == cl.beacons[..j]
      invariant rctx.numBeacons == |cl.beacons| && rctx.numAp == NumAps(cl.beacons)
    {
      rctx.beacon[j] := cl.beacons[j];
    }
    rctx.gnss := cl.gnss;
    assert rctx.beacon[..rctx.numBeacons] == cl.beacons;
  }

  // ----- encoding -----

  /** What the encoder reads of each access point and of each cell. */
  function ApFieldsOf(s: List): (aps: seq<ApFields>)
    ensures |aps| == NumAps(s)
  {
    var aps := ApsOf(s);
    seq(|aps|, i requires 0 <= i < |aps| =>
      ApFields(aps[i].ap.mac, aps[i].ap.freq, aps[i].h.rssi, aps[i].h.age, aps[i].h.connected))
  }

  function CellBeaconsOf(s: List): seq<CellBeacon> {
    if s == [] then []
    else
      CellBeaconsOf(s[..|s| - 1])
      + match s[|s| - 1]
        case Cell(h, c) => [CellBeacon(h, c)]
        case _ => []
  }

  /** No cell has a negative identifier to send. Validation lets some pass: the area of GSM, UMTS and NR cells, the cell
      identity of GSM ones, the physical identity of LTE and UMTS ones, and the frequency of LTE ones. */
  predicate Sendable(s: List) {
    forall i | 0 <= i < |s| && s[i].Cell? :: IdentifiersFit(s[i].cell)
  }

  lemma {:induction false} SendableCells(s: List)
    requires AllValid(s)
    ensures (forall i | 0 <= i < |CellBeaconsOf(s)| :: CellFits(CellBeaconsOf(s)[i].h, CellBeaconsOf(s)[i].c)) <==>
            Sendable(s)
  {
    if s != [] {
      var n := |s| - 1;
      SendableCells(s[..n]);
      assert ValidBeacon(s[n]);
      var before, cells := CellBeaconsOf(s[..n]), CellBeaconsOf(s);
      assert Sendable(s) <==> Sendable(s[..n]) && (s[n].Cell? ==> IdentifiersFit(s[n].cell));
      assert forall i | 0 <= i < |before| :: cells[i] == before[i];
      assert s[n].Cell? ==> |cells| == |before| + 1 && cells[|before|] == CellBeacon(s[n].h, s[n].cell);
    }
  }

  /** Which identifiers of a valid cell can be negative and still be sent. */
  lemma {:induction false} NegativeIdentifiers(h: Header, c: CellData)
    requires ValidBeacon(Cell(h, c))
    ensures !IdentifiersFit(c) <==>
            || (c.kind in {GSM, UMTS, NR} && c.id3 < -1)
            || (c.kind == GSM && c.id4 < -1)
            || (c.kind in {LTE, UMTS} && c.id5 < -1)
            || (c.kind == LTE && c.freq < -1)
  {}

  /** Valid access points always fit the wire. */
  lemma {:induction false} ApsAlwaysFit(s: List)
    requires Invariant(s)
    ensures NumAps(s) > 0 ==> ApsFit(ApFieldsOf(s))
  {
    ApsOfPrefix(s);
    var aps := ApFieldsOf(s);
    forall i | 0 <= i < |aps| ensures aps[i].rssi <= 0 && aps[i].freq <= 6000 && aps[i].age < 0x8000_0000 {
      assert ValidBeacon(s[i]);
    }
  }

  datatype EncodeStatus = Encoded | EncodeDenied | NoBeacons

  /** No beacons are sent while a registration is needed. */
  predicate SendsBeacons(session: Session) {
    !TbrEnabled(session) || session.tokenId != TBR_TOKEN_UNKNOWN
  }

  /** What a request of an unregistered session puts on the wire is a bare registration. */
  lemma {:induction false} BareRegistration(session: Session, s: List)
    ensures StartState(session) == Unregistered ==> BeaconFields(session, s) == []
    ensures StartState(session) != Unregistered ==>
              BeaconFields(session, s) == ApMessage(ApFieldsOf(s)) + CellMessages(CellBeaconsOf(s))
  {}

  /** In every consistent state of the protocol, beacons are sent exactly if the live context is not unregistered. */
  lemma {:induction false} SentUnlessUnregistered(st: State)
    requires Consistent(st) && st.live.Some?
    ensures SendsBeacons(st.session) <==> st.live.value.auth != Unregistered
  {}

  /** The beacon fields a request puts on the wire. */
  function BeaconFields(session: Session, s: List): seq<Field> {
    if SendsBeacons(session) then ApMessage(ApFieldsOf(s)) + CellMessages(CellBeaconsOf(s)) else []
  }

  /** The beacon part of Rq_callback. */
  method PutBeacons(rctx: RequestContext, ostream: OStream)
    requires Usable(rctx) && ostream.Valid()
    modifies ostream
    ensures ostream.Valid()
    ensures ostream.content ==
            old(ostream.content) + Message(BeaconFields(rctx.session.AuthView(), rctx.Contents()))
  {
    var s := rctx.beacon[..rctx.numBeacons];
    NoFields(ostream.content);
    if SendsBeacons(rctx.session.AuthView()) {
      EncodeBeacons(ostream, ApFieldsOf(s), CellBeaconsOf(s));
    }
  }

  /** sky_encode_request: refused in a back-off or without content, else the beacons go to the stream, unless the session
      is to be registered first. */
  method SkyEncodeRequest(rctx: RequestContext, ostream: OStream) returns (status: EncodeStatus)
    requires Usable(rctx) && ostream.Valid()
    modifies ostream
    ensures ostream.Valid()
    ensures status == (if !MayEncode(rctx.session.AuthView(), Request(rctx.time, rctx.auth)) then EncodeDenied
                       else if rctx.Contents() == [] && rctx.gnss == None then NoBeacons else Encoded)
    ensures status != Encoded || StartState(rctx.session.AuthView()) == Unregistered ==>
              ostream.content == old(ostream.content)
    ensures status == Encoded && StartState(rctx.session.AuthView()) != Unregistered ==>
              var s := rctx.Contents();
              ostream.content == old(ostream.content) + Message(ApMessage(ApFieldsOf(s)) + CellMessages(CellBeaconsOf(s)))
  {
    if Violation(rctx.session.AuthView(), rctx.time) {
      return EncodeDenied;
    }
    if rctx.numBeacons == 0 && rctx.gnss.None? {
      return NoBeacons;
    }
    status := Encoded;
    BareRegistration(rctx.session.AuthView(), rctx.Contents());
    NoFields(ostream.content);
    PutBeacons(rctx, ostream);
  }

  /** End to end: a server that reads the encoded request (with any other fields around the beacons) gets back all
      its access points and cells, exactly if no cell has a negative identifier; a registration carries none. */
  lemma {:induction false} RequestReadsBack(session: Session, s: List, pre: seq<Field>, post: seq<Field>)
    requires Invariant(s) && HasRoom(s) && Others(pre) && Others(post)
    ensures ReadRequest(Message(pre + BeaconFields(session, s) + post)) ==
            Some(if StartState(session) == Unregistered then RequestView(NoAps, [])
                 else RequestView(ApsPartOf(ApFieldsOf(s)), CellViews(CellBeaconsOf(s))))
            <==> (StartState(session) != Unregistered ==> Sendable(s))
  {
    if SendsBeacons(session) {
      SendableCells(s);
      ApsAlwaysFit(s);
      RequestRoundTrip(pre, ApFieldsOf(s), [], CellBeaconsOf(s), post);
      AroundBeacons(pre, ApMessage(ApFieldsOf(s)), CellMessages(CellBeaconsOf(s)), post);
    } else {
      RequestRoundTrip(pre, [], [], [], post);
      AroundBeacons(pre, [], [], post);
    }
  }

  lemma {:induction false} AroundBeacons(pre: seq<Field>, a: seq<Field>, c: seq<Field>, post: seq<Field>)
    ensures pre + (a + c) + post == pre + a + ([] + c + post)
    ensures a == [] && c == [] ==> pre + [] + post == pre + a + ([] + c + post)
  {}

  /** What a cell view says of a cell, field by field. */
  predicate TellsCell(v: CellView, h: Header, c: CellData) {
    && v.connected == h.connected && v.rssi == h.rssi && v.age == h.age
    && v.wireType == (match c.kind case CDMA => 3 case GSM => 4 case LTE => 5 case NBIOT => 6 case UMTS => 7 case NR => 8)
    && v.id2 == (if c.id2 == 0xFFFF then None else Some(c.id2))
    && v.id3 == (if c.id3 == -1 then None else Some(c.id3))
    && v.id4 == (if c.id4 == -1 then None else Some(c.id4))
    && v.id1 == (if c.kind == CDMA || c.id1 == 0xFFFF then None else Some(c.id1))
    && v.id5 == (if c.kind == CDMA || c.id5 == -1 then None else Some(c.id5))
    && v.id6 == (if c.kind == CDMA || c.freq == -1 then None else Some(c.freq))
    && v.ta == (if c.ta == -1 || !(c.kind == GSM || c.kind == LTE || c.kind == NR) then None else Some(c.ta))
  }

  /** What an access-point view says of the first access points of a list, and that it names the first connected one. */
  predicate TellsAps(v: ApsView, s: List) {
    var n := |v.macs|;
    && n == NumAps(s) && |v.freqs| == |v.rssis| == |v.ages| == n
    && (forall i | 0 <= i < n && s[i].Ap? ::
          && v.macs[i] == Macs.MacNumber(s[i].ap.mac) && v.freqs[i] == s[i].ap.freq
          && v.rssis[i] == s[i].h.rssi && v.ages[i] == s[i].h.age)
    && (v.connected == None ==> forall i | 0 <= i < n :: !s[i].h.connected)
    && (v.connected.Some? ==>
          && v.connected.value < n && s[v.connected.value].h.connected
          && forall i | 0 <= i < v.connected.value :: !s[i].h.connected)
  }

  predicate TellsCells(v: seq<CellView>, s: List) {
    && |v| == |s| - NumAps(s)
    && forall i | NumAps(s) <= i < |s| && s[i].Cell? :: TellsCell(v[i - NumAps(s)], s[i].h, s[i].cell)
  }

  /** The cells of a list whose first n entries are access points and whose others are cells. */
  lemma {:induction false} CellBeaconsFrom(s: List, n: nat)
    requires n <= |s| && forall i | 0 <= i < |s| :: if i < n then s[i].Ap? else s[i].Cell?
    ensures |CellBeaconsOf(s)| == |s| - n
    ensures forall i | n <= i < |s| :: CellBeaconsOf(s)[i - n] == CellBeacon(s[i].h, s[i].cell)
  {
    if s != [] {
      var m := |s| - 1;
      CellBeaconsFrom(s[..m], if n <= m then n else m);
    }
  }

  lemma {:induction false} CellBeaconsInOrder(s: List)
    requires Invariant(s)
    ensures |CellBeaconsOf(s)| == |s| - NumAps(s)
    ensures forall i | NumAps(s) <= i < |s| :: s[i].Cell? && CellBeaconsOf(s)[i - NumAps(s)] == CellBeacon(s[i].h, s[i].cell)
  {
    ApsArePrefix(s);
    CellBeaconsFrom(s, NumAps(s));
  }

  lemma {:induction false} ViewTellsCell(h: Header, c: CellData)
    ensures TellsCell(CellViewOf(h, c), h, c)
  {}

  lemma {:induction false} ViewTellsAps(s: List)
    requires Invariant(s)
    ensures TellsAps(ViewOf(ApFieldsOf(s)), s)
  {
    ApsOfPrefix(s);
    var aps := ApFieldsOf(s);
    assert forall i | 0 <= i < NumAps(s) :: aps[i].connected == s[i].h.connected && aps[i].mac == s[i].ap.mac;
  }

  lemma {:induction false} ViewTellsCells(s: List)
    requires Invariant(s)
    ensures TellsCells(CellViews(CellBeaconsOf(s)), s)
  {
    CellBeaconsInOrder(s);
    var v := CellViews(CellBeaconsOf(s));
    forall i | NumAps(s) <= i < |s| && s[i].Cell? ensures TellsCell(v[i - NumAps(s)], s[i].h, s[i].cell) {
      ViewTellsCell(s[i].h, s[i].cell);
    }
  }

  /** In plain terms: of a registered or TBR-less session's request a server learns every beacon of the list, field by
      field and in its place. */
  lemma {:induction false} ServerLearnsAll(session: Session, s: List, pre: seq<Field>, post: seq<Field>)
    requires Invariant(s) && HasRoom(s) && Others(pre) && Others(post) && Sendable(s)
    requires session.sku == "" || session.tokenId != 0
    ensures var v := ReadRequest(Message(pre + BeaconFields(session, s) + post));
            && v.Some? && TellsCells(v.value.cells, s)
            && (if NumAps(s) == 0 then v.value.aps == NoAps else v.value.aps.Aps? && TellsAps(v.value.aps.view, s))
  {
    RequestReadsBack(session, s, pre, post);
    ViewTellsAps(s);
    ViewTellsCells(s);
  }

  // ----- decoding -----

  /** The used flags count only in an answer to a location request. */
  predicate LocationAnswered(auth: TbrState, status: LocationStatus) {
    auth != Unregistered && status != AuthError
  }

  /** What a readable response brings besides its status and token. */
  datatype Body = Body(config: Config, used: seq<bool>, lat: real, lon: real, hpe: nat)

  function EffectiveUsed(auth: TbrState, resp: Response, body: Body): seq<bool> {
    if resp.Reply? && LocationAnswered(auth, resp.status) then body.used else []
  }

  /** A located answer brings its used flags; an unreadable one, the answer to a registration and a refused token bring
      none. */
  lemma {:induction false} UsedFlagsCount(session: Session, r: Request, now: Uint32, resp: Response, body: Body)
    ensures Decode(session, r, now, resp).verdict == Located ==> EffectiveUsed(r.auth, resp, body) == body.used
    ensures resp.Garbled? || r.auth == Unregistered || resp.status == AuthError ==> EffectiveUsed(r.auth, resp, body) == []
  {}

  /** apply_used_info_to_ap: the server's used flags by position. */
  method ApplyUsedInfo(rctx: RequestContext, used: seq<bool>)
    requires Usable(rctx)
    modifies rctx.beacon
    ensures rctx.Valid() && rctx.Contents() == WithUsedFlags(old(rctx.Contents()), used)
  {
    ghost var was := rctx.Contents();
    ghost var marked := WithUsedFlags(was, used);
    for i := 0 to rctx.numBeacons
      invariant forall k | 0 <= k < i :: rctx.beacon[k] == marked[k]
      invariant forall k | i <= k < rctx.numBeacons :: rctx.beacon[k] == was[k]
    {
      if i < |used| {
        var b := SetUsed(rctx.beacon[i], used[i]);
        assert b == marked[i];
        rctx.beacon[i] := b;
      }
    }
    assert rctx.beacon[..rctx.numBeacons] == marked;
    UsedFlagsKeep(was, used);
  }

  /** The authentication switch of deserialize_response. */
  method DigestAuth(rctx: RequestContext, status: LocationStatus, tokenId: Int32) returns (reported: LocationStatus)
    modifies rctx`auth, rctx.session`tokenId
    ensures Deserialize(old(rctx.session.AuthView()), Request(rctx.time, old(rctx.auth)), status, tokenId)
            == (rctx.session.AuthView(), Request(rctx.time, rctx.auth), reported)
  {
    match rctx.auth
    case Unregistered =>
      if tokenId != TBR_TOKEN_UNKNOWN {
        rctx.auth := Registered;
        rctx.session.tokenId := tokenId;
      }
      reported := AuthError;
    case Registered =>
      if status == AuthError {
        rctx.auth := Unregistered;
        rctx.session.tokenId := TBR_TOKEN_UNKNOWN;
      }
      reported := status;
    case Disabled =>
      reported := if status == AuthError then BadPartnerId else status;
  }

  /** The final switch of sky_decode_response over the reported status. */
  method SettleBackoff(rctx: RequestContext, reported: LocationStatus) returns (verdict: Verdict)
    modifies rctx.session`backoff
    ensures Settle(old(rctx.session.AuthView()), rctx.auth, reported) == (rctx.session.AuthView(), verdict)
  {
    match reported
    case Success =>
      rctx.session.backoff := NoBackoff;
      verdict := Located;
    case AuthError =>
      match rctx.auth {
        case Disabled =>
          verdict := AuthRejected;
        case Registered =>
          rctx.session.backoff := NoBackoff;
          verdict := RetryNow;
        case Unregistered =>
          if rctx.session.backoff == NoBackoff {
            rctx.session.backoff := Retry;
          } else if rctx.session.backoff == Retry {
            rctx.session.backoff := Retry8h;
          } else if rctx.session.backoff == Retry8h {
            rctx.session.backoff := Retry16h;
          } else {
            rctx.session.backoff := Retry1d;
          }
          verdict := BackedOff(rctx.session.backoff);
      }
    case BadPartnerId => verdict := AuthRejected;
    case DecodeFailure => verdict := AuthRejected;
    case UnableToLocate => verdict := LocationUnknown;
    case _ => verdict := ServerError;
  }

  /** What a readable response does before the back-off is settled and the scan stored. */
  method DigestBody(rctx: RequestContext, body: Body, used: seq<bool>)
    requires Usable(rctx) && Sound(body.config.policy)
    modifies rctx.beacon, rctx.session`config, rctx.session`cacheHits
    ensures rctx.Valid()
    ensures var w := old(WorldOf(rctx));
            var r := w.request.value;
            WorldOf(rctx) == World(body.config, w.lines, if r.hit then w.cacheHits else 0,
                                   Some(r.(beacons := WithUsedFlags(r.beacons, used))))
  {
    ApplyUsedInfo(rctx, used);
    rctx.session.config := body.config;
    if !rctx.hit {
      rctx.session.cacheHits := 0;
    }
  }

  /** deserialize_response on a readable response. */
  method DigestReply(rctx: RequestContext, status: LocationStatus, tokenId: Int32, body: Body, used: seq<bool>)
    returns (reported: LocationStatus)
    requires Usable(rctx) && Sound(body.config.policy)
    modifies rctx`auth, rctx.beacon, rctx.session`tokenId, rctx.session`config, rctx.session`cacheHits
    ensures rctx.Valid()
    ensures Deserialize(old(rctx.session.AuthView()), Request(rctx.time, old(rctx.auth)), status, tokenId)
            == (rctx.session.AuthView(), Request(rctx.time, rctx.auth), reported)
    ensures var w := old(WorldOf(rctx));
            var r := w.request.value;
            WorldOf(rctx) == World(body.config, w.lines, if r.hit then w.cacheHits else 0,
                                   Some(r.(beacons := WithUsedFlags(r.beacons, used))))
  {
    ghost var w := WorldOf(rctx);
    reported := DigestAuth(rctx, status, tokenId);
    assert WorldOf(rctx) == w;
    DigestBody(rctx, body, used);
  }

  /** A located answer is stored. */
  method StoreFix(rctx: RequestContext, verdict: Verdict, fix: Location, ghost w: World, ghost config: Config,
                  ghost used: seq<bool>)
    requires rctx.Valid() && Ready(w) && w.request.Some? && Sound(config.policy) && fix.status == Success
    requires var r := w.request.value;
             WorldOf(rctx) == World(config, w.lines, if r.hit then w.cacheHits else 0,
                                    Some(r.(beacons := WithUsedFlags(r.beacons, used))))
    modifies rctx.session.cacheline
    ensures Usable(rctx)
    ensures ReceivedTo(w, config, used, if verdict == Located then Some(fix) else None, WorldOf(rctx))
  {
    if verdict == Located {
      var _, at := ToCache(rctx, fix);
      assert fix.time > TIMESTAMP_2019_03_01 ==> StoredAt(w.lines, w.request.value.saveTo, w.request.value.time, at);
    }
    ReceiveKeeps(w, config, used, if verdict == Located then Some(fix) else None, WorldOf(rctx));
  }

  /** A readable response, its time noted: digested, the back-off settled, the fix stored at time later. */
  method SettleReply(rctx: RequestContext, later: int, status: LocationStatus, tokenId: Int32, body: Body,
                     used: seq<bool>)
    returns (verdict: Verdict)
    requires Usable(rctx) && Sound(body.config.policy)
    modifies rctx`auth, rctx.beacon, rctx.session, rctx.session.cacheline
    ensures Usable(rctx) && rctx.session.openFlag == old(rctx.session.openFlag)
    ensures Decode(old(rctx.session.AuthView()), Request(rctx.time, old(rctx.auth)), old(rctx.session.time),
                   Reply(status, tokenId))
            == Decoded(rctx.session.AuthView(), Request(rctx.time, rctx.auth), verdict)
    ensures ReceivedTo(old(WorldOf(rctx)), body.config, used,
                       if verdict == Located then Some(Location(Success, later, body.lat, body.lon, body.hpe)) else None,
                       WorldOf(rctx))
  {
    ghost var w := WorldOf(rctx);
    var reported := DigestReply(rctx, status, tokenId, body, used);
    ghost var digested := WorldOf(rctx);
    verdict := SettleBackoff(rctx, reported);
    assert WorldOf(rctx) == digested;
    StoreFix(rctx, verdict, Location(Success, later, body.lat, body.lon, body.hpe), w, body.config, used);
  }

  /** sky_decode_response at time now, the fix being stamped and stored at time later. */
  method SkyDecodeResponse(rctx: RequestContext, now: Uint32, later: int, resp: Response, body: Body)
    returns (verdict: Verdict)
    requires Usable(rctx) && Sound(body.config.policy)
    modifies rctx`auth, rctx.beacon, rctx.session, rctx.session.cacheline
    ensures Usable(rctx) && rctx.session.openFlag == old(rctx.session.openFlag)
    ensures Decode(old(rctx.session.AuthView()), Request(rctx.time, old(rctx.auth)), now, resp)
            == Decoded(rctx.session.AuthView(), Request(rctx.time, rctx.auth), verdict)
    ensures resp.Garbled? ==> WorldOf(rctx) == old(WorldOf(rctx))
    ensures resp.Reply? ==>
              ReceivedTo(old(WorldOf(rctx)), body.config, EffectiveUsed(old(rctx.auth), resp, body),
                         if verdict == Located then Some(Location(Success, later, body.lat, body.lon, body.hpe)) else None,
                         WorldOf(rctx))
  {
    ghost var w := WorldOf(rctx);
    var used := EffectiveUsed(rctx.auth, resp, body);
    rctx.session.time := now;
    if resp.Garbled? {
      assert WorldOf(rctx) == w;
      return DecodeError;
    }
    assert WorldOf(rctx) == w;
    verdict := SettleReply(rctx, later, resp.status, resp.tokenId, body, used);
  }
}
