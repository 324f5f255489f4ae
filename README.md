# yadokari webhook verification, modelled in Dafny

yadokari is a Slack bot served with axum on Shuttle. This project models its
webhook verification endpoint, the `challenge` handler behind
`POST /challenge`. The bot is configured with a verification token, held in
`AppState`. A request body carries a `token` and an optional `challenge`.
The handler compares the request's token with the configured one:

- on a mismatch it answers `400 Bad Request` with `{ok: false, challenge: None}`;
- on a match it answers `200 OK` with `{ok: true}` and the request's challenge echoed verbatim.

Files:

- `wrappers.dfy`: module `Wrappers`, the `Option` datatype that stands for Rust's `Option<String>`.
- `challenge.dfy`: module `Yadokari`. It holds the records `AppState`, `ChallengeRequest`
  and `ChallengeResponse`, the status datatype, the handler `Challenge` and the lemmas about it.

Strings are `seq<char>`, and Rust's `!=` on `String` is modelled as Dafny's
sequence inequality. The handler receives its state by value (axum hands each
request a clone of `AppState`), so nothing can be changed by a call. The router
is built with `.with_state(app_state)` (src/lib.rs:88), and the handler takes
`State<AppState>` (src/lib.rs:37). `ServeAll` stands in for the router handing
every request the same cloned state: it answers a whole run of requests
against one `AppState`.

## Model

| member | source | states |
|---|---|---|
| Yadokari.Challenge | src/lib.rs:37-52 | status is 200 iff the request token equals the configured token; `ok` is true iff the status is 200; a refused reply carries no challenge; an accepted reply carries exactly the request's challenge |
| Yadokari.StatusCode.Code | src/lib.rs:44-50 | `Ok` is HTTP 200 (a 2xx success) and `BadRequest` is HTTP 400 (a 4xx client error), and no other code is produced |
| Yadokari.ChallengeOutcomes | src/lib.rs:37-51 | every reply is either `400 {ok: false, challenge: None}` or `200 {ok: true, challenge: <request's>}`; `ok` iff code 200 iff the token is authentic; code 400 iff it is not |
| Yadokari.MismatchIgnoresChallenge | src/lib.rs:38-44 | on a wrong token the reply is `{ok: false, challenge: None}` whatever challenge the request carried |
| Yadokari.EchoRoundTrip | src/lib.rs:45-50 | a request with the configured token gets status 200 and gets back exactly the challenge it sent, `None` included |
| Yadokari.AcceptedIffSameCharacters | src/lib.rs:38 | a request is accepted iff its token has the configured token's length and agrees with it at every position |
| Yadokari.NearMissesRejected | src/lib.rs:38 | a token of a different length (a prefix, an extension, a padded copy) or one differing at any single position is refused with 400 |
| Yadokari.ServeAll | src/lib.rs:37 | each call gets its own copy of the `AppState` of src/lib.rs:14-17 through the `State` extractor, which the router supplies at src/lib.rs:88; against that one read-only `AppState`, each reply in a run is exactly the handler's reply to that request alone |
| Yadokari.AcceptedCountIsAuthenticCount | src/lib.rs:37-51 | over any run of requests, the number of 200 replies equals the number of requests carrying the configured token |
| Yadokari.ServeAllSplits | src/lib.rs:81-88 | with the one `AppState` the router is built with (src/lib.rs:88) and cloned into each call (src/lib.rs:37), serving two runs back to back gives the concatenation of serving each alone: no call changes what later calls see |

## Left out

- The failure log line (`tracing::warn!`) is a side effect with no observable contract.
- JSON parsing and serialisation by serde/axum are not modelled. Requests and responses are already-parsed records, and a malformed body never reaches the handler.
- `post_message` is not modelled. It reads `.env` and the environment and posts a fixed message to the Slack API over HTTPS. It panics when `.env` is missing, when `SLACK_BOT_TOKEN` is unset, or when the transport or the body read fails. An error reply from Slack is passed back to the caller as 200 with Slack's body. It has no logic to state.
- The Shuttle entry point and the router are not modelled. They cover the secret-store lookup of `VERIFICATION_TOKEN`, the route table and the `SyncWrapper`.
- `src/main.rs` is not modelled. It covers environment parsing, the Postgres pool and migrations, and binding the server. It calls a five-argument `router` that `src/lib.rs` does not define.
- `src/main.rs:28-34` passes a bot user, a region code (`TDFK`) and a Postgres pool to a `router` that `src/lib.rs` does not define. The listing pipeline that call implies is not in the source and is not modelled. The request record in `src/lib.rs` has only `token` and `challenge`.
- Rust compares `String`s by their UTF-8 bytes. The model compares sequences of characters. The two agree on equality, so the handler's decision is the same.
