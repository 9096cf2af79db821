/** Token-based registration and the back-off after failed authentication, as a timed state machine: the parts of
    sky_new_request, sky_encode_request, sky_decode_response (libel/libel.c) and deserialize_response
    (libel/protocol/proto.c) that read or change them. */
module Auth {
  import opened Beacons
  import opened Prelude

  const SECONDS_IN_HOUR: int := 3600
  const TIMESTAMP_2019_03_01: int := 1551398400
  const TIME_UNAVAILABLE: int := 0
  const TBR_TOKEN_UNKNOWN: int := 0

  datatype Backoff = NoBackoff | Retry | Retry8h | Retry16h | Retry1d | NeedsTime

  datatype TbrState = Disabled | Unregistered | Registered

  datatype LocationStatus = Success | UnspecifiedError | BadPartnerId | DecodeFailure | ApiServerError | AuthError | UnableToLocate

  /** What sky_decode_response reports. */
  datatype Verdict = Located | DecodeError | AuthRejected | RetryNow | BackedOff(backoff: Backoff)
    | LocationUnknown | ServerError

  /** The session fields that matter here. The time is that of the last server response. */
  datatype Session = Session(sku: string, tokenId: Int32, backoff: Backoff, time: Uint32)

  /** The live request context: when it was started and how it authenticates. */
  datatype Request = Request(time: Uint32, auth: TbrState)

  /** A server response: unreadable, or a status with the token of its body (unknown if absent). */
  datatype Response = Garbled | Reply(status: LocationStatus, tokenId: Int32)

  predicate TbrEnabled(s: Session) {
    s.sku != ""
  }

  function BackoffSeconds(b: Backoff): nat {
    match b
    case Retry8h => 8 * 3600
    case Retry16h => 16 * 3600
    case Retry1d => 24 * 3600
    case _ => 0
  }

  /** backoff_violation: too early for another attempt. */
  predicate Violation(s: Session, now: int) {
    match s.backoff
    case NoBackoff => false
    case Retry => false
    case NeedsTime => now == TIME_UNAVAILABLE
    case _ => now - s.time < BackoffSeconds(s.backoff)
  }

  function StartState(s: Session): TbrState {
    if !TbrEnabled(s) then Disabled else if s.tokenId == TBR_TOKEN_UNKNOWN then Unregistered else Registered
  }

  /** sky_new_request: a context, unless the back-off forbids it. A clock before March 2019 counts as unavailable. */
  function NewRequest(s: Session, now: Uint32): Option<Request> {
    if Violation(s, if now < TIMESTAMP_2019_03_01 then TIME_UNAVAILABLE else now) then None
    else Some(Request(now, StartState(s)))
  }

  /** The authentication part of sky_encode_request. */
  predicate MayEncode(s: Session, r: Request) {
    !Violation(s, r.time)
  }

  datatype Decoded = Decoded(session: Session, request: Request, verdict: Verdict)

  /** The authentication switch of deserialize_response: new session and request, and the status it reports. */
  function Deserialize(s: Session, r: Request, status: LocationStatus, tokenId: Int32)
    : (Session, Request, LocationStatus)
  {
    match r.auth
    case Unregistered =>
      if tokenId == TBR_TOKEN_UNKNOWN then (s, r, AuthError)
      else (s.(tokenId := tokenId), r.(auth := Registered), AuthError)
    case Registered =>
      if status == AuthError then (s.(tokenId := TBR_TOKEN_UNKNOWN), r.(auth := Unregistered), AuthError)
      else (s, r, status)
    case Disabled =>
      (s, r, if status == AuthError then BadPartnerId else status)
  }

  function NextBackoff(b: Backoff): Backoff {
    match b
    case NoBackoff => Retry
    case Retry => Retry8h
    case Retry8h => Retry16h
    case _ => Retry1d
  }

  /** The last switch of sky_decode_response: what the reported status does to the back-off. */
  function Settle(s: Session, auth: TbrState, reported: LocationStatus): (Session, Verdict) {
    match reported
    case Success => (s.(backoff := NoBackoff), Located)
    case AuthError =>
      (match auth
       case Disabled => (s, AuthRejected)
       case Registered => (s.(backoff := NoBackoff), RetryNow)
       case Unregistered => (s.(backoff := NextBackoff(s.backoff)), BackedOff(NextBackoff(s.backoff))))
    case BadPartnerId => (s, AuthRejected)
    case DecodeFailure => (s, AuthRejected)
    case UnableToLocate => (s, LocationUnknown)
    case _ => (s, ServerError)
  }

  /** sky_decode_response: note the time, digest the response, then settle the back-off by the reported status. */
  function Decode(s0: Session, r0: Request, now: Uint32, resp: Response): Decoded {
    var s := s0.(time := now);
    match resp
    case Garbled => Decoded(s, r0, DecodeError)
    case Reply(status, tokenId) =>
      var (s', r', reported) := Deserialize(s, r0, status, tokenId);
      var (s'', verdict) := Settle(s', r'.auth, reported);
      Decoded(s'', r', verdict)
  }

  // ----- how long a back-off lasts -----

  /** A back-off is over when its hours have passed since the last response; the first retry is free. */
  predicate Over(b: Backoff, elapsed: int) {
    match b
    case Retry8h => elapsed >= 8 * 3600
    case Retry16h => elapsed >= 16 * 3600
    case Retry1d => elapsed >= 24 * 3600
    case _ => true
  }

  /** With a good clock a request is admitted exactly when the back-off is over, and without one only if there is nothing
      to wait for. An admitted request carries the clock; encoding asks again, by that clock. */
  lemma {:induction false} AdmittedIff(s: Session, now: Uint32)
    requires s.time >= 0
    ensures now >= TIMESTAMP_2019_03_01 ==> (NewRequest(s, now).Some? <==> Over(s.backoff, now - s.time))
    ensures now < TIMESTAMP_2019_03_01 ==> (NewRequest(s, now).Some? <==> s.backoff == NoBackoff || s.backoff == Retry)
    ensures NewRequest(s, now).Some? ==> NewRequest(s, now).value.time == now
    ensures now >= TIMESTAMP_2019_03_01 ==> forall auth :: MayEncode(s, Request(now, auth)) <==> Over(s.backoff, now - s.time)
  {}

  // ----- runs: one live request context per session -----

  /** What the caller does; an Encode may fail for other reasons than the back-off. */
  datatype Event = Start(now: Uint32) | Encode(hasContent: bool) | Receive(now: Uint32, resp: Response)

  /** The state of a run: the session, the live context and whether it was encoded and not yet answered, the clock
      and the times of the authentication failures since the back-off was last clear. */
  datatype State = State(session: Session, live: Option<Request>, pending: bool, clock: Uint32, failures: seq<Uint32>)

  function Initial(sku: string, time: Uint32): State {
    State(Session(sku, TBR_TOKEN_UNKNOWN, NoBackoff, time), None, false, time, [])
  }

  /** The clock does not run backwards, and every response answers an encoded request. */
  predicate Allowed(st: State, e: Event) {
    match e
    case Start(now) => st.clock <= now
    case Encode(_) => st.live.Some?
    case Receive(now, _) => st.clock <= now && st.live.Some? && st.pending
  }

  function Step(st: State, e: Event): State
    requires Allowed(st, e)
  {
    match e
    case Start(now) => st.(live := NewRequest(st.session, now), pending := false, clock := now)
    case Encode(hasContent) =>
      if MayEncode(st.session, st.live.value) && hasContent then st.(pending := true) else st
    case Receive(now, resp) =>
      var d := Decode(st.session, st.live.value, now, resp);
      State(d.session, Some(d.request), false, now,
            if d.verdict.BackedOff? then st.failures + [now]
            else if d.session.backoff == NoBackoff then [] else st.failures)
  }

  ghost predicate IsRun(states: seq<State>, events: seq<Event>) {
    && |states| == |events| + 1
    && (exists sku, time :: states[0] == Initial(sku, time))
    && forall i | 0 <= i < |events| :: Allowed(states[i], events[i]) && states[i + 1] == Step(states[i], events[i])
  }

  // ----- the authentication state agrees with the session -----

  /** Disabled iff there is no SKU, registered iff a token is held; a token or a back-off exists only under TBR, and
      never both. */
  predicate Consistent(st: State) {
    var s := st.session;
    && (s.tokenId != TBR_TOKEN_UNKNOWN ==> TbrEnabled(s))
    && (s.backoff != NoBackoff ==> TbrEnabled(s) && s.tokenId == TBR_TOKEN_UNKNOWN)
    && s.backoff != NeedsTime
    && (st.live.Some? ==>
          && (st.live.value.auth == Disabled <==> s.sku == "")
          && (st.live.value.auth == Registered <==> s.tokenId != TBR_TOKEN_UNKNOWN))
  }

  lemma {:induction false} StepConsistent(st: State, e: Event)
    requires Consistent(st) && Allowed(st, e)
    ensures Consistent(Step(st, e)) && Step(st, e).session.sku == st.session.sku
  {}

  /** The state at every point of every run is consistent. */
  lemma {:induction false} RunConsistent(states: seq<State>, events: seq<Event>, i: nat)
    requires IsRun(states, events) && i < |states|
    ensures Consistent(states[i])
  {
    if i > 0 {
      RunConsistent(states, events, i - 1);
      StepConsistent(states[i - 1], events[i - 1]);
    }
  }

  /** The answer to a registration never carries a location: it registers or fails, whatever its status says. */
  lemma {:induction false} RegistrationYieldsNoLocation(s: Session, r: Request, now: Uint32, resp: Response)
    requires r.auth == Unregistered
    ensures Decode(s, r, now, resp).verdict != Located
    ensures resp.Reply? && resp.tokenId != TBR_TOKEN_UNKNOWN ==>
              Decode(s, r, now, resp).verdict == RetryNow && Decode(s, r, now, resp).session.tokenId == resp.tokenId
  {}

  // ----- the back-off ladder -----

  function Ladder(n: nat): Backoff {
    if n == 0 then NoBackoff else if n == 1 then Retry else if n == 2 then Retry8h else if n == 3 then Retry16h else Retry1d
  }

  /** Each failure after the second came no sooner than the wait its predecessor imposed. */
  predicate Spaced(f: seq<Uint32>) {
    forall i | 1 <= i < |f| :: f[i] - f[i - 1] >= BackoffSeconds(Ladder(i))
  }

  predicate Timed(st: State) {
    && st.session.backoff == Ladder(|st.failures|)
    && Spaced(st.failures)
    && st.session.time <= st.clock
    && (st.failures != [] ==> st.failures[|st.failures| - 1] <= st.session.time)
    && (st.live.Some? ==> st.live.value.time <= st.clock)
    && (st.pending ==> st.live.Some? && MayEncode(st.session, st.live.value))
  }

  lemma {:induction false} StepTimed(st: State, e: Event)
    requires Timed(st) && Consistent(st) && Allowed(st, e)
    ensures Timed(Step(st, e))
  {
    if e.Receive? {
      var d := Decode(st.session, st.live.value, e.now, e.resp);
      if d.verdict.BackedOff? {
        var f, n := st.failures, |st.failures|;
        assert n > 0 ==> e.now - f[n - 1] >= BackoffSeconds(Ladder(n));
      }
    }
  }

  lemma {:induction false} RunTimed(states: seq<State>, events: seq<Event>, i: nat)
    requires IsRun(states, events) && i < |states|
    ensures Timed(states[i])
  {
    if i > 0 {
      RunTimed(states, events, i - 1);
      RunConsistent(states, events, i - 1);
      StepTimed(states[i - 1], events[i - 1]);
    }
  }

  lemma {:induction false} LongWait(f: seq<Uint32>)
    requires Spaced(f) && |f| >= 4
    ensures f[|f| - 1] - f[0] >= 24 * 3600 * (|f| - 3)
    decreases |f|
  {
    var n := |f| - 1;
    assert f[n] - f[n - 1] >= BackoffSeconds(Ladder(n));
    if n == 3 {
      assert f[2] - f[1] >= BackoffSeconds(Ladder(2)) && f[1] - f[0] >= BackoffSeconds(Ladder(1));
    } else {
      LongWait(f[..n]);
    }
  }

  /** No back-off locks a session out: in every run a start with a good clock, a day or more after the last response, gets
      a context, and a request with content that is then encoded goes out. */
  lemma {:induction false} WaitEnds(states: seq<State>, events: seq<Event>, i: nat)
    requires IsRun(states, events) && i < |events| && events[i].Start?
    requires events[i].now >= TIMESTAMP_2019_03_01 && events[i].now - states[i].session.time >= 24 * 3600
    ensures states[i + 1].live.Some? && states[i + 1].session == states[i].session
    ensures i + 1 < |events| && events[i + 1] == Encode(true) ==> states[i + 2].pending
  {
    AdmittedIff(states[i].session, events[i].now);
    assert states[i + 1] == Step(states[i], events[i]);
    if i + 1 < |events| && events[i + 1] == Encode(true) {
      assert states[i + 2] == Step(states[i + 1], events[i + 1]);
    }
  }

  /** At every point of every run the back-off is that of the number n of failures since it was last clear: retry,
      8 hours, 16 hours, then a day for ever; and from the fourth on the n-th failure comes at least n - 3 days after
      the first. */
  lemma {:induction false} BackoffLadder(states: seq<State>, events: seq<Event>, i: nat)
    requires IsRun(states, events) && i < |states|
    ensures states[i].session.backoff == Ladder(|states[i].failures|)
    ensures var f := states[i].failures; |f| >= 4 ==> f[|f| - 1] - f[0] >= 24 * 3600 * (|f| - 3)
  {
    RunTimed(states, events, i);
    if |states[i].failures| >= 4 {
      LongWait(states[i].failures);
    }
  }

  /** Without the rule of one response per request the ladder is climbed in no time: a second response to the same
      request counts as another failure. */
  lemma {:induction false} UnansweredRuleMatters(s: Session, r: Request, now: Uint32)
    requires s.backoff == NoBackoff && r.auth == Unregistered
    ensures var fail := Reply(UnspecifiedError, TBR_TOKEN_UNKNOWN);
            var d1 := Decode(s, r, now, fail);
            var d2 := Decode(d1.session, d1.request, now, fail);
            var d3 := Decode(d2.session, d2.request, now, fail);
            var d4 := Decode(d3.session, d3.request, now, fail);
            d4.verdict == BackedOff(Retry1d)
  {}
}
