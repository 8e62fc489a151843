# Token-bucket rate limiting and bearer authentication of a course-management API

This project is a Dafny model of the two middleware functions of a small
course-management REST server. It also holds proofs about them.

- **`rateLimit`** (server.js). Every request carries a client address. The
  middleware keeps one token bucket per address: a hash with fields `tokens`
  and `last`. It reads the bucket and fills in defaults for fields that are
  missing or unusable. It then refills the bucket continuously, at 10 tokens
  per 60000 ms, capped at 10. If one whole token is available, the request is
  let through and one token is spent; otherwise the answer is 429. The bucket
  is written back in both cases. If the read from the store throws, the
  request is let through and nothing is written.
- **`requireAuthentication`** (lib/auth.js). The `Authorization` header is cut
  at single spaces. The second piece is the token when the first piece is
  exactly `Bearer`. A missing or empty token is answered with 401 "Missing
  authentication token". A token that the verifier rejects is answered with
  401 "Invalid authentication token". Otherwise `req.user` is set from the
  payload's `sub` and `admin` and the request goes on.

Files:

- `wrappers.dfy`: `Option`, which stands for a JavaScript value that may be
  `undefined`.
- `token_bucket.dfy` (module `TokenBucket`): the constants, the stored hash,
  and the read, refill and decide steps as functions, with the lemmas about
  them.
- `server.dfy` (module `Server`): class `Limiter`. Its field `store` is the
  key-value store as a `map`. Its method `RateLimit` performs one request
  step by step, as the source does. `SameInstantRequests` calls `RateLimit`
  repeatedly for one address at one instant.
- `auth.dfy` (module `Auth`): splitting at spaces and joining back, token
  selection, the decision, and the method `RequireAuthentication`, which acts
  on a `Request` object.

Facts about the code that the model keeps:

- There is one capacity class only (10 per 60000 ms).
- Buckets are keyed by `req.ip` alone.
- Negative elapsed time is not clamped.

The inputs that are not under the program's control are parameters:

- `now` is the clock reading.
- `readFails` says whether the store read throws.
- `verify` is the token verifier, `jwt.verify` with the server's secret. It
  returns `None` where `jwt.verify` throws.

## Model

| member | source | states |
|---|---|---|
| `TokenBucket.ReadTokens` | server.js:41 | The tokens read are the stored number or the capacity 10. With the code's `\|\|` defaulting they are never 0, and any nonzero stored number is kept. With only missing fields defaulted, any stored number, 0 included, is kept. Stated fully by `FalsyFieldsTakeDefaults`. |
| `TokenBucket.ReadLast` | server.js:42 | The `last` read is the stored number or `now`. With `\|\|` defaulting it is never 0 unless `now` is 0, and any nonzero stored number is kept. With only missing fields defaulted, any stored number is kept. Stated fully by `FalsyFieldsTakeDefaults`. |
| `TokenBucket.ReadBucket` | server.js:40-43 | A stored hash in range reads as a bucket with tokens in [0, 10] and `last` no later than `now`. |
| `TokenBucket.Refill` | server.js:45-48 | The refilled count never exceeds the capacity of 10. It is at most the old count plus elapsed time times the rate. It equals either that sum or the cap. |
| `TokenBucket.Decide` | server.js:45-66 | `last` becomes `now`. The decision is `next` or the 429 answer. An admitted request leaves at most 9 tokens. A rejected one leaves less than 1. Stated fully by `DecideSpendsOneTokenOrRejects`. |
| `TokenBucket.Evaluate` | server.js:40-66 | One request: `last` becomes `now`, and a hash in range stays in range. Stated in detail by `StoredTokensStayInRange`. |
| `TokenBucket.Burst` | server.js:31-67 | The decisions for n requests at one instant number exactly n. What they are is stated by the burst lemmas below. |
| `TokenBucket.FalsyFieldsTakeDefaults` | server.js:40-43 | A missing, non-numeric or zero `tokens` reads as 10; any other number is kept. A missing, non-numeric or zero `last` reads as `now`; any other number is kept. |
| `TokenBucket.FreshKeyIsAdmitted` | server.js:34-57 | A key with no stored hash is admitted and left holding 9 tokens, with `last` = `now`. |
| `TokenBucket.DecideSpendsOneTokenOrRejects` | server.js:45-66 | A request is admitted exactly when the old count plus the refill reaches 1. An admitted request stores the refilled count minus exactly 1. A rejected one gets 429 "Too many requests per minute" and stores the refilled count unchanged. `last` is `now` in both cases. |
| `TokenBucket.RefillRate` | server.js:26-48 | Below the cap, refill adds elapsed/6000 tokens. 6000 ms add exactly one token (or reach the cap). A whole 60000 ms window fills any non-negative bucket. |
| `TokenBucket.StoredTokensStayInRange` | server.js:40-62 | If the stored tokens are not negative and `last` is not after `now`, the written tokens lie in [0, 10] and the written `last` is `now`. |
| `TokenBucket.RequestKeepsStoreInRange` | server.js:34-62 | If every stored bucket is in range at `now`, this still holds after a request, for `now` and any later time. Every key other than the requesting one reads back unchanged. |
| `TokenBucket.ClockSkewIsNotClamped` | server.js:45-47 | A stored `last` 12000 ms in the future removes two tokens. A bucket holding 1 is rejected and left at -1. |
| `TokenBucket.DrainedBucketReadsAsFull` | server.js:41-57 | As written, a bucket stored with exactly 0 tokens is admitted on the next request, which leaves it holding 9. |
| `TokenBucket.RefilledToOneDrainsThenReadsFull` | server.js:40-57 | As written, a request that finds nonzero stored fields and a refilled count of exactly 1, at any time, is admitted and stores 0. The next request, at the same time or any later time, reads that 0 as 10, is admitted and leaves 9. |
| `TokenBucket.SpacedRequestsReachZeroAndReset` | server.js:40-57 | As written, a bucket holding 1 token at time 1 admits requests at 3001 (leaving 0.5) and 6001 (leaving 0). A request at 6002 reads that 0 as full and leaves 9. |
| `TokenBucket.RejectedAtZeroThenReadsFull` | server.js:40-62 | As written, a request that finds nonzero stored fields and a refilled count of exactly 0, at any time, is rejected with 429 and stores 0. The next request, at the same time or any later time, reads that 0 as 10, is admitted and leaves 9. |
| `TokenBucket.SkewedCountRefillsToZeroAndResets` | server.js:40-62 | As written, a bucket holding 1 with a `last` 12000 ms in the future is rejected and left at -1. 6000 ms later it is rejected again and left at exactly 0. The next request at that instant reads the 0 as full and leaves 9. |
| `TokenBucket.NegativeBurstRejected` | server.js:40-62 | As written, requests at one instant on a bucket holding a negative count are all rejected with 429, and the bucket written back is unchanged. |
| `TokenBucket.WholeCountDrainsThenResets` | server.js:40-57 | As written, n requests at one instant on k whole tokens (k at most 10) leave k - n tokens while n is at most k. Request k + 1 finds 0, reads it as full and leaves 9. `last` is `now` throughout. |
| `TokenBucket.ElevenRequestsLeaveNine` | server.js:31-67 | As written, after eleven requests at one instant from a new address the hash written back holds 9 tokens and `last` = `now`, as after the first request. |
| `TokenBucket.SameInstantBurstNeverRejected` | server.js:40-57 | As written, any number of requests at one instant against a bucket of 0 to 10 whole tokens are all admitted. |
| `TokenBucket.FractionalBurstAdmitsFloor` | server.js:40-66 | As written, a bucket holding a count `x` in [0, 10] that is not a whole number admits exactly the first floor(x) requests at one instant and rejects the rest. The count never reaches exactly 0, so the defect does not arise. |
| `TokenBucket.IntendedBurstAdmitsFloor` | server.js:40-66 | If only missing fields take defaults, any count `x` in [0, 10] admits exactly the first floor(x) requests at one instant and rejects the rest. |
| `TokenBucket.FreshKeyBurstNeverRejected` | server.js:31-67 | As written, every request in a burst of any length at one instant from a new key is admitted, the eleventh included. |
| `TokenBucket.IntendedBurstAdmitsExactlyStored` | server.js:41-66 | If only missing fields take defaults, a burst at one instant against k whole tokens admits exactly the first k requests. |
| `TokenBucket.IntendedFreshKeyBurst` | server.js:31-67 | If only missing fields take defaults, a burst at one instant from a new key admits exactly the first 10 requests and rejects the rest. |
| `TokenBucket.IntendedDrainedBucketRefillsOneToken` | server.js:41-66 | If only missing fields take defaults, a drained bucket is rejected at the same instant. 6000 ms later it admits exactly one request and is left at 0. |
| `Server.Limiter.RateLimit` | server.js:31-67 | If the read throws, the request is admitted and the store is unchanged. Otherwise the decision and the bucket written under `ip` are those of one evaluation with `\|\|` defaults, and `last` becomes `now`. No other key changes. The range invariant is preserved. |
| `Server.SameInstantRequests` | server.js:31-67 | Running `RateLimit` n times for one address at one instant, with the store reachable, gives exactly the decisions of `Burst` as written. It leaves under the address exactly the hash of `BurstRecord`, the hash a burst writes back, and after at least one request the address holds a hash. For an address with no bucket, all of them are admitted. No other key changes. |
| `Auth.Split` | lib/auth.js:13 | `split(" ")` gives at least one piece, and no piece contains a space. |
| `Auth.JoinSplit` | lib/auth.js:13 | Joining the pieces with single spaces gives back the header. |
| `Auth.SplitJoin` | lib/auth.js:13 | Splitting joined space-free pieces gives back the same pieces. |
| `Auth.HeaderValue` | lib/auth.js:12 | An absent header reads as the empty string; a present one reads as itself. |
| `Auth.SelectToken` | lib/auth.js:13-15 | A selected token contains no space, and it is only selected when the first piece is exactly `Bearer`. Stated fully by `SelectTokenCharacterized`. |
| `Auth.SelectTokenCharacterized` | lib/auth.js:13-15 | A token `t` is selected if and only if the header starts with `Bearer`, one space and `t`, and `t` is followed by a space or by the end of the header. |
| `Auth.OtherSchemeYieldsNoToken` | lib/auth.js:14-15 | Any first piece other than `Bearer` yields no token. The comparison is case-sensitive, so `bearer` is refused too. |
| `Auth.FurtherPiecesIgnored` | lib/auth.js:13-15 | The token is exactly the second piece, and anything after the next space is ignored. |
| `Auth.AbsentHeaderIsMissingToken` | lib/auth.js:12-18 | An absent or empty header is answered with 401 "Missing authentication token". |
| `Auth.BearerWithoutTokenIsMissing` | lib/auth.js:13-18 | `Bearer` alone, `Bearer ` or `Bearer` followed by two spaces is answered with 401 "Missing authentication token". |
| `Auth.Authenticate` | lib/auth.js:12-36 | A refusal carries one of the two messages. An authenticated result has a non-empty selected token that the verifier accepts, and the user is that payload's `sub` and `admin`. Stated fully by `AuthenticateCharacterized`. |
| `Auth.AuthenticateCharacterized` | lib/auth.js:10-37 | Without a non-empty bearer token the answer is "Missing". With one, the verifier decides. If it accepts, the user is `{id: sub, isAdmin: admin}` of the payload. If it rejects, the answer is 401 "Invalid authentication token". |
| `Auth.RequireAuthentication` | lib/auth.js:10-37 | The method continues (`next`, exactly once) only when the decision is an authenticated user, and then sets `req.user` to that user. Otherwise it answers 401 with the decision's message and leaves `req.user` unchanged. |

## Left out

- Text parsing by `parseFloat` and `parseInt` is not modelled. A stored field
  is held already parsed: absent, not a number, or a number. Leading-number
  prefixes ("12abc"), `Infinity` and the truncation `parseInt` applies to a
  non-integer `last` are not represented. Values the limiter writes read back
  exactly.
- Token counts are exact reals. IEEE double rounding of `tokens` is not
  modelled.
- The two separate `Date.now()` readings (server.js:42 and 45) are one `now`
  parameter.
- Failures of the store writes (`hSet` at server.js:53 and 59) are not
  modelled. The source does not catch them.
- Two requests racing on the same key are not modelled. The
  read-modify-write is unsynchronised, and the model performs one request at
  a time.
- `generateAuthToken` (lib/auth.js:5-8), the internals of `jwt.verify` and
  the hard-coded secret are not modelled. They are calls into the token
  library. Verification is the parameter `verify`.
- Payload claims are modelled as an optional string `sub` and an optional
  boolean `admin`. Claims of other JavaScript types are not represented.
- Logging (`console.log`, `console.error`) is left out. So is the JSON shape
  of the error bodies, which is modelled as a status code and a message.
- The server bootstrap (dotenv, Redis and MongoDB connections, routing,
  the 404 and 500 handlers, `listen`) is I/O wiring and is not part of this
  model. So are the models/ and api/ modules.

## Findings

| source | as written | input that shows it | evidently intended | confidence | as-written member | corrected member |
|---|---|---|---|---|---|---|
| server.js:41 | `parseFloat(tokens) \|\| rateLimitWindowMaxRequests` treats a stored 0 as missing, so a bucket drained to exactly 0 reads back full | eleven requests from a new address at the same millisecond: the eleventh is admitted and the bucket is reset to 9. More generally, no burst at one instant from a whole count of tokens is ever rejected. Spaced requests that bring the count to exactly 0, whether an admitted request spends a refilled 1 or a rejected one writes back a refilled 0, reset it too | only a missing or non-numeric field should default, so that the eleventh request is rejected (429) and the count stays at 0 | high; not executed | `TokenBucket.FreshKeyBurstNeverRejected` | `TokenBucket.IntendedFreshKeyBurst` |

The defect affects every count that reaches exactly 0, and the request
after that finds a full bucket. There are two routes to 0:

- An admitted request finds a refilled count of exactly 1 and spends it
  (`RefilledToOneDrainsThenReadsFull`). This happens in a burst at one
  instant from a whole count, which is where a new key starts
  (`SameInstantBurstNeverRejected`, `ElevenRequestsLeaveNine`). It also
  happens across separate instants (`SpacedRequestsReachZeroAndReset`).
- A rejected request finds a refilled count of exactly 0 and writes it back
  (`RejectedAtZeroThenReadsFull`). This happens when the negative count left
  by a `last` in the future refills to 0 across instants
  (`SkewedCountRefillsToZeroAndResets`).

At one instant, a count that is not whole never reaches 0. Such a count is
limited correctly as written: a fractional count admits floor(x) requests
(`FractionalBurstAdmitsFloor`), and a negative count is always rejected
(`NegativeBurstRejected`). `Server.SameInstantRequests` ties repeated calls
of `Limiter.RateLimit` to `Burst` and `BurstRecord`, so the as-written half
holds of the class itself.

The corrected reading is `Defaulting.MissingDefaults`. The properties proved
under it are `IntendedBurstAdmitsExactlyStored`, `IntendedBurstAdmitsFloor`,
`IntendedFreshKeyBurst` and `IntendedDrainedBucketRefillsOneToken`. The range lemmas
`StoredTokensStayInRange` and `RequestKeepsStoreInRange` are proved for both
readings. `Server.Limiter.RateLimit` keeps the code's behaviour
(`FalsyDefaults`), because it models the middleware as written.
