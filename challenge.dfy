/**
  The Slack-style webhook verification endpoint of yadokari (`POST /challenge`).

  The configured verification token is read-only application state; a request
  carries a token and an optional challenge; the handler answers with an HTTP
  status and a JSON body `{ok, challenge}`. JSON (de)serialisation is not
  modelled: requests and responses are already-parsed records.
*/
module Yadokari {
  import opened Wrappers

  /** Application state shared by every request: only the verification token. */
  datatype AppState = AppState(verificationToken: string)

  /** The parsed request body: the caller's token and an optional challenge. */
  datatype ChallengeRequest = ChallengeRequest(token: string, challenge: Option<string>)

  /** The JSON response body. */
  datatype ChallengeResponse = ChallengeResponse(ok: bool, challenge: Option<string>)

  /** The two HTTP statuses the handler can answer with. */
  datatype StatusCode = Ok | BadRequest {

    /** The numeric HTTP status: 200 for success, 400 for a client error. */
    function Code(): (c: int)
      ensures this == Ok <==> c == 200
      ensures this == BadRequest <==> c == 400
      ensures this == Ok ==> 200 <= c < 300
      ensures this == BadRequest ==> 400 <= c < 500
    {
      match this
      case Ok => 200
      case BadRequest => 400
    }
  }

  /** What the handler returns: a status paired with the JSON body. */
  datatype Reply = Reply(status: StatusCode, body: ChallengeResponse)

  /** True when the request carries exactly the configured token. */
  predicate Authentic(state: AppState, req: ChallengeRequest) {
    req.token == state.verificationToken
  }

  /**
    The `challenge` handler. A request whose token differs from the
    configured one is refused with 400 and `{ok: false, challenge: None}`;
    otherwise the answer is 200 with `{ok: true}` and the request's challenge
    echoed unchanged. The failure log line is not modelled.
  */
  function Challenge(state: AppState, req: ChallengeRequest): (r: Reply)
    ensures r.status == Ok <==> req.token == state.verificationToken
    ensures r.body.ok <==> r.status == Ok
    ensures r.status == BadRequest ==> r.body.challenge == None
    ensures r.status == Ok ==> r.body.challenge == req.challenge
  {
    if req.token != state.verificationToken then
      Reply(BadRequest, ChallengeResponse(false, None))
    else
      Reply(Ok, ChallengeResponse(true, req.challenge))
  }

  /** The reply to any request is one of exactly two shapes, and which one is decided by the token alone. */
  lemma ChallengeOutcomes(state: AppState, req: ChallengeRequest)
    ensures Challenge(state, req) == Reply(BadRequest, ChallengeResponse(false, None))
         || Challenge(state, req) == Reply(Ok, ChallengeResponse(true, req.challenge))
    ensures Challenge(state, req).body.ok <==> Challenge(state, req).status.Code() == 200
    ensures Challenge(state, req).status.Code() == 200 <==> Authentic(state, req)
    ensures Challenge(state, req).status.Code() == 400 <==> !Authentic(state, req)
  {
  }

  /** On a token mismatch the reply does not depend on the challenge the request carried. */
  lemma MismatchIgnoresChallenge(state: AppState, token: string, c1: Option<string>, c2: Option<string>)
    requires token != state.verificationToken
    ensures Challenge(state, ChallengeRequest(token, c1)) == Challenge(state, ChallengeRequest(token, c2))
    ensures Challenge(state, ChallengeRequest(token, c1)).body == ChallengeResponse(false, None)
  {
  }

  /** The handshake round trip: whatever challenge is sent with the right token comes back unchanged. */
  lemma EchoRoundTrip(state: AppState, c: Option<string>)
    ensures Challenge(state, ChallengeRequest(state.verificationToken, c)).status == Ok
    ensures Challenge(state, ChallengeRequest(state.verificationToken, c)).body.challenge == c
  {
  }

  /** Character-by-character agreement of two tokens: an independent statement of exact equality. */
  predicate SameCharacters(a: string, b: string) {
    |a| == |b| && forall i :: 0 <= i < |a| ==> a[i] == b[i]
  }

  /** The token check is exact: accepted precisely when the two tokens agree character by character. */
  lemma AcceptedIffSameCharacters(state: AppState, req: ChallengeRequest)
    ensures Challenge(state, req).status == Ok <==> SameCharacters(req.token, state.verificationToken)
  {
  }

  /**
    No trimming, case folding or prefix matching: a token that extends the
    configured one, is a proper prefix of it, or differs from it in a single
    position is refused.
  */
  lemma NearMissesRejected(state: AppState, req: ChallengeRequest, i: nat)
    ensures |req.token| != |state.verificationToken| ==> Challenge(state, req).status == BadRequest
    ensures i < |req.token| && i < |state.verificationToken| && req.token[i] != state.verificationToken[i]
            ==> Challenge(state, req) == Reply(BadRequest, ChallengeResponse(false, None))
  {
  }

  /**
    The handler only reads the shared state: serving a sequence of requests
    against one AppState answers each request exactly as if it were the only
    one, with the same configured token every time.
  */
  function ServeAll(state: AppState, reqs: seq<ChallengeRequest>): (rs: seq<Reply>)
    ensures |rs| == |reqs|
    ensures forall i :: 0 <= i < |reqs| ==> rs[i] == Challenge(state, reqs[i])
  {
    if reqs == [] then [] else [Challenge(state, reqs[0])] + ServeAll(state, reqs[1..])
  }

  /** Number of replies with status 200. */
  function CountAccepted(rs: seq<Reply>): nat {
    if rs == [] then 0 else (if rs[0].status == Ok then 1 else 0) + CountAccepted(rs[1..])
  }

  /** Number of requests carrying the configured token. */
  function CountAuthentic(state: AppState, reqs: seq<ChallengeRequest>): nat {
    if reqs == [] then 0 else (if Authentic(state, reqs[0]) then 1 else 0) + CountAuthentic(state, reqs[1..])
  }

  /** Over any run of requests, exactly the authentic ones are accepted. */
  lemma {:induction false} AcceptedCountIsAuthenticCount(state: AppState, reqs: seq<ChallengeRequest>)
    ensures CountAccepted(ServeAll(state, reqs)) == CountAuthentic(state, reqs)
  {
    if reqs != [] {
      var rs := ServeAll(state, reqs);
      assert rs[1..] == ServeAll(state, reqs[1..]);
      AcceptedCountIsAuthenticCount(state, reqs[1..]);
    }
  }

  /** Serving two runs back to back is the same as serving them separately: nothing carries over. */
  lemma ServeAllSplits(state: AppState, a: seq<ChallengeRequest>, b: seq<ChallengeRequest>)
    ensures ServeAll(state, a + b) == ServeAll(state, a) + ServeAll(state, b)
  {
  }
}
