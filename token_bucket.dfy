/** The token-bucket arithmetic of the rate limiter in server.js, on values:
    how a stored hash is read back, refilled, spent and written again, and
    what that implies over one call and over a burst of calls. */
module TokenBucket {

  /** `rateLimitWindowMilliseconds` */
  const WindowMilliseconds: int := 60000
  /** `rateLimitWindowMaxRequests`: the capacity of every bucket */
  const WindowMaxRequests: int := 10
  const Capacity: real := WindowMaxRequests as real
  /** `rateLimitRefreshRate`: tokens regained per elapsed millisecond */
  const RefreshRate: real := WindowMaxRequests as real / WindowMilliseconds as real

  /** One field of a stored hash as `parseFloat`/`parseInt` see it: missing
      (`undefined`), present but not a number (`NaN`), or a number. */
  datatype Field<T> = Absent | NotANumber | Number(value: T)

  /** The hash stored under one key: its `tokens` and `last` fields. */
  datatype Record = Record(tokens: Field<real>, last: Field<int>)

  /** What `hGetAll` returns for a key that holds no hash: an empty object. */
  const NoRecord: Record := Record(Absent, Absent)

  /** The `tokenBucket` object the limiter computes with. */
  datatype Bucket = Bucket(tokens: real, last: int)

  /** `next()` or the 429 answer. */
  datatype Decision = Admit | Reject(status: nat, error: string)

  const TooManyRequests: Decision := Reject(429, "Too many requests per minute")

  /** The decision and the bucket written back. */
  datatype Step = Step(decision: Decision, bucket: Bucket)

  /** How a read replaces an unusable field by its default. */
  datatype Defaulting =
    | FalsyDefaults    // `x || d`: NaN AND zero fall back to d, as server.js does
    | MissingDefaults  // only a missing or non-numeric field falls back

  /** The hash under `key`; a key without one reads as an empty hash. */
  function Lookup(store: map<string, Record>, key: string): Record {
    if key in store then store[key] else NoRecord
  }

  /** `parseFloat(tokenBucket.tokens) || rateLimitWindowMaxRequests` */
  function ReadTokens(f: Field<real>, policy: Defaulting): (t: real)
    ensures t == Capacity || (f.Number? && t == f.value)
    ensures policy == FalsyDefaults ==> t != 0.0
    ensures f.Number? && f.value != 0.0 ==> t == f.value
    ensures policy == MissingDefaults && f.Number? ==> t == f.value
  {
    if f.Number? && (policy == MissingDefaults || f.value != 0.0) then f.value else Capacity
  }

  /** `parseInt(tokenBucket.last) || Date.now()` */
  function ReadLast(f: Field<int>, now: int, policy: Defaulting): (last: int)
    ensures last == now || (f.Number? && last == f.value)
    ensures policy == FalsyDefaults && now != 0 ==> last != 0
    ensures f.Number? && f.value != 0 ==> last == f.value
    ensures policy == MissingDefaults && f.Number? ==> last == f.value
  {
    if f.Number? && (policy == MissingDefaults || f.value != 0) then f.value else now
  }

  /** The bucket as read back; a hash in range reads as a bucket in range. */
  function ReadBucket(policy: Defaulting, rec: Record, now: int): (b: Bucket)
    ensures RecordInRange(rec, now) ==> 0.0 <= b.tokens <= Capacity && b.last <= now
  {
    Bucket(ReadTokens(rec.tokens, policy), ReadLast(rec.last, now, policy))
  }

  /** The tokens after the continuous refill, `Math.min`-capped; elapsed time
      is not clamped, so a `last` in the future removes tokens. */
  function Refill(b: Bucket, now: int): (tokens: real)
    ensures tokens <= Capacity
    ensures tokens <= b.tokens + (now - b.last) as real * RefreshRate
    ensures tokens == Capacity || tokens == b.tokens + (now - b.last) as real * RefreshRate
  {
    var refilled := b.tokens + (now - b.last) as real * RefreshRate;
    if refilled < Capacity then refilled else Capacity
  }

  /** Refill, then spend one token and admit, or reject; `last` becomes `now`. */
  function Decide(b: Bucket, now: int): (s: Step)
    ensures s.bucket.last == now
    ensures s.decision == Admit || s.decision == TooManyRequests
    ensures s.bucket.tokens <= Capacity - (if s.decision == Admit then 1.0 else 0.0)
    ensures s.decision == TooManyRequests ==> s.bucket.tokens < 1.0
  {
    var tokens := Refill(b, now);
    if tokens >= 1.0 then Step(Admit, Bucket(tokens - 1.0, now))
    else Step(TooManyRequests, Bucket(tokens, now))
  }

  /** One request against the hash `rec` at time `now`. */
  function Evaluate(policy: Defaulting, rec: Record, now: int): (s: Step)
    ensures s.bucket.last == now
    ensures RecordInRange(rec, now) ==> RecordInRange(Stored(s.bucket), now)
  {
    Decide(ReadBucket(policy, rec, now), now)
  }

  /** What `hSet` leaves behind: both fields as numbers. */
  function Stored(b: Bucket): Record {
    Record(Number(b.tokens), Number(b.last))
  }

  /** The decisions for `n` requests on one key at the same instant. */
  function Burst(policy: Defaulting, rec: Record, now: int, n: nat): (ds: seq<Decision>)
    ensures |ds| == n
    decreases n
  {
    if n == 0 then []
    else
      var s := Evaluate(policy, rec, now);
      [s.decision] + Burst(policy, Stored(s.bucket), now, n - 1)
  }

  /** The hash left under the key after `n` requests at the same instant. */
  function BurstRecord(policy: Defaulting, rec: Record, now: int, n: nat): (r: Record)
    ensures n > 0 ==> r.tokens.Number? && r.last == Number(now)
    ensures n == 0 ==> r == rec
    decreases n
  {
    if n == 0 then rec
    else BurstRecord(policy, Stored(Evaluate(policy, rec, now).bucket), now, n - 1)
  }

  /** A hash whose fields, where they are numbers, hold tokens in
      `[0, Capacity]` and a `last` no later than `now`. */
  predicate RecordInRange(rec: Record, now: int) {
    (rec.tokens.Number? ==> 0.0 <= rec.tokens.value <= Capacity) &&
    (rec.last.Number? ==> rec.last.value <= now)
  }

  predicate InRange(store: map<string, Record>, now: int) {
    forall k :: k in store ==> RecordInRange(store[k], now)
  }

  // ---------------------------------------------------------------------
  // One request

  /** A missing, non-numeric or zero `tokens` reads as a full bucket, and a
      missing, non-numeric or zero `last` reads as `now`, so nothing is refilled. */
  lemma FalsyFieldsTakeDefaults(rec: Record, now: int)
    ensures !rec.tokens.Number? || rec.tokens.value == 0.0 ==>
              ReadBucket(FalsyDefaults, rec, now).tokens == Capacity
    ensures rec.tokens.Number? && rec.tokens.value != 0.0 ==>
              ReadBucket(FalsyDefaults, rec, now).tokens == rec.tokens.value
    ensures !rec.last.Number? || rec.last.value == 0 ==>
              ReadBucket(FalsyDefaults, rec, now).last == now
    ensures rec.last.Number? && rec.last.value != 0 ==>
              ReadBucket(FalsyDefaults, rec, now).last == rec.last.value
  {
  }

  /** A key never seen before is admitted and left with one token spent. */
  lemma FreshKeyIsAdmitted(policy: Defaulting, now: int)
    ensures Evaluate(policy, NoRecord, now) == Step(Admit, Bucket(Capacity - 1.0, now))
  {
  }

  /** The request is admitted exactly when the unclamped refill reaches one
      token; an admitted request spends exactly one refilled token, a rejected
      one keeps them all and answers 429; `last` is `now` either way. */
  lemma DecideSpendsOneTokenOrRejects(b: Bucket, now: int)
    ensures var s := Decide(b, now);
      && (s.decision == Admit <==> b.tokens + (now - b.last) as real * RefreshRate >= 1.0)
      && (s.decision != Admit ==> s.decision == Reject(429, "Too many requests per minute"))
      && s.bucket.last == now
      && s.bucket.tokens == (if s.decision == Admit then Refill(b, now) - 1.0 else Refill(b, now))
      && s.bucket.tokens <= Capacity - (if s.decision == Admit then 1.0 else 0.0)
  {
  }

  /** Refill adds elapsed milliseconds times 10/60000 until the cap: one
      token every 6000 ms, and a whole window refills any non-negative bucket. */
  lemma RefillRate(b: Bucket, now: int)
    ensures b.tokens + (now - b.last) as real / 6000.0 <= Capacity ==>
              Refill(b, now) == b.tokens + (now - b.last) as real / 6000.0
    ensures now == b.last + 6000 ==> Refill(b, now) == if b.tokens < 9.0 then b.tokens + 1.0 else Capacity
    ensures b.tokens >= 0.0 && now >= b.last + WindowMilliseconds ==> Refill(b, now) == Capacity
  {
  }

  /** When time does not run backwards and the stored tokens are not
      negative, the tokens written back lie in `[0, Capacity]` and `last`
      is `now`, whichever defaulting the read uses. */
  lemma StoredTokensStayInRange(policy: Defaulting, rec: Record, now: int)
    requires rec.tokens.Number? ==> rec.tokens.value >= 0.0
    requires rec.last.Number? ==> rec.last.value <= now
    ensures var b := Evaluate(policy, rec, now).bucket;
      0.0 <= b.tokens <= Capacity && b.last == now
  {
  }

  /** The store-wide range invariant survives a request at `now` and any
      later clock reading; only the requesting key changes. */
  lemma RequestKeepsStoreInRange(policy: Defaulting, store: map<string, Record>, key: string, now: int, later: int)
    requires InRange(store, now) && now <= later
    ensures var after := store[key := Stored(Evaluate(policy, Lookup(store, key), now).bucket)];
      InRange(after, later) && forall k :: k != key ==> Lookup(after, k) == Lookup(store, k)
  {
  }

  /** Elapsed time is not clamped: a `last` 12000 ms in the future takes two
      tokens away, leaving a negative count behind. */
  lemma ClockSkewIsNotClamped(policy: Defaulting, now: int)
    requires now >= 0
    ensures Evaluate(policy, Record(Number(1.0), Number(now + 12000)), now)
         == Step(TooManyRequests, Bucket(-1.0, now))
  {
  }

  // ---------------------------------------------------------------------
  // Bursts at one instant: as written, and with only missing fields defaulted

  /** As written, a bucket drained to exactly zero tokens reads back as full:
      the next request is admitted and leaves `Capacity - 1` tokens. */
  lemma DrainedBucketReadsAsFull(last: int, now: int)
    requires last <= now
    ensures Evaluate(FalsyDefaults, Record(Number(0.0), Number(last)), now)
         == Step(Admit, Bucket(Capacity - 1.0, now))
  {
  }

  /** As written, a request whose refilled count is exactly one token, at
      any instant, spends it and stores 0; that 0 then reads back as a full
      bucket on the next request, however much later it comes. */
  lemma RefilledToOneDrainsThenReadsFull(x: real, last: int, now: int, later: int)
    requires x != 0.0 && last != 0 && now <= later
    requires x + (now - last) as real * RefreshRate == 1.0
    ensures Evaluate(FalsyDefaults, Record(Number(x), Number(last)), now)
         == Step(Admit, Bucket(0.0, now))
    ensures Evaluate(FalsyDefaults, Record(Number(0.0), Number(now)), later)
         == Step(Admit, Bucket(Capacity - 1.0, later))
  {
  }

  /** As written, the count also reaches exactly zero across separate
      instants: one token at time 1, then requests at 3001, 6001 and 6002.
      The third request finds 0, reads it as 10 and leaves 9 behind. */
  lemma SpacedRequestsReachZeroAndReset()
    ensures Evaluate(FalsyDefaults, Record(Number(1.0), Number(1)), 3001)
         == Step(Admit, Bucket(0.5, 3001))
    ensures Evaluate(FalsyDefaults, Stored(Bucket(0.5, 3001)), 6001)
         == Step(Admit, Bucket(0.0, 6001))
    ensures Evaluate(FalsyDefaults, Stored(Bucket(0.0, 6001)), 6002)
         == Step(Admit, Bucket(Capacity - 1.0, 6002))
  {
  }

  /** As written, a rejected request whose refilled count is exactly zero
      stores 0, and that 0 reads back as a full bucket on the next request:
      the second route to a zero count. */
  lemma RejectedAtZeroThenReadsFull(x: real, last: int, now: int, later: int)
    requires x != 0.0 && last != 0 && now <= later
    requires x + (now - last) as real * RefreshRate == 0.0
    ensures Evaluate(FalsyDefaults, Record(Number(x), Number(last)), now)
         == Step(TooManyRequests, Bucket(0.0, now))
    ensures Evaluate(FalsyDefaults, Record(Number(0.0), Number(now)), later)
         == Step(Admit, Bucket(Capacity - 1.0, later))
  {
  }

  /** As written, the negative count that clock skew leaves behind refills to
      exactly zero 6000 ms later on a rejected request, and the request after
      that finds a full bucket. */
  lemma SkewedCountRefillsToZeroAndResets(now: int)
    requires now > 0
    ensures Evaluate(FalsyDefaults, Record(Number(1.0), Number(now + 12000)), now)
         == Step(TooManyRequests, Bucket(-1.0, now))
    ensures Evaluate(FalsyDefaults, Stored(Bucket(-1.0, now)), now + 6000)
         == Step(TooManyRequests, Bucket(0.0, now + 6000))
    ensures Evaluate(FalsyDefaults, Stored(Bucket(0.0, now + 6000)), now + 6000)
         == Step(Admit, Bucket(Capacity - 1.0, now + 6000))
  {
  }

  /** As written, at one instant a negative count is rejected every time and
      stays where it is. */
  lemma {:induction false} NegativeBurstRejected(rec: Record, x: real, now: int, n: nat)
    requires x < 0.0 && now != 0 && rec == Record(Number(x), Number(now))
    ensures forall i :: 0 <= i < n ==> Burst(FalsyDefaults, rec, now, n)[i] == TooManyRequests
    ensures BurstRecord(FalsyDefaults, rec, now, n) == rec
    decreases n
  {
    if n > 0 {
      assert Evaluate(FalsyDefaults, rec, now) == Step(TooManyRequests, Bucket(x, now));
      NegativeBurstRejected(rec, x, now, n - 1);
      assert Burst(FalsyDefaults, rec, now, n) == [TooManyRequests] + Burst(FalsyDefaults, rec, now, n - 1);
    }
  }

  /** As written, requests at one instant on a bucket holding a whole number of
      tokens are never rejected, however many there are. */
  lemma {:induction false} SameInstantBurstNeverRejected(rec: Record, k: nat, now: int, n: nat)
    requires k <= WindowMaxRequests && rec == Record(Number(k as real), Number(now))
    ensures forall i :: 0 <= i < n ==> Burst(FalsyDefaults, rec, now, n)[i] == Admit
    decreases n
  {
    if n > 0 {
      var k' := if k == 0 then WindowMaxRequests - 1 else k - 1;
      assert Evaluate(FalsyDefaults, rec, now) == Step(Admit, Bucket(k' as real, now));
      SameInstantBurstNeverRejected(Record(Number(k' as real), Number(now)), k', now, n - 1);
      var rest := Burst(FalsyDefaults, Record(Number(k' as real), Number(now)), now, n - 1);
      assert Burst(FalsyDefaults, rec, now, n) == [Admit] + rest;
    }
  }

  /** As written, a key seen for the first time admits every one of any
      number of requests made at the same instant (an eleventh one included). */
  lemma FreshKeyBurstNeverRejected(now: int, n: nat)
    ensures forall i :: 0 <= i < n ==> Burst(FalsyDefaults, NoRecord, now, n)[i] == Admit
  {
    if n > 0 {
      var k := WindowMaxRequests - 1;
      assert Evaluate(FalsyDefaults, NoRecord, now) == Step(Admit, Bucket(k as real, now));
      SameInstantBurstNeverRejected(Record(Number(k as real), Number(now)), k, now, n - 1);
      var rest := Burst(FalsyDefaults, Record(Number(k as real), Number(now)), now, n - 1);
      assert Burst(FalsyDefaults, NoRecord, now, n) == [Admit] + rest;
    }
  }

  /** When only missing fields are defaulted, requests at one instant on a
      bucket of `k` whole tokens are admitted exactly `k` times, then rejected. */
  lemma {:induction false} IntendedBurstAdmitsExactlyStored(rec: Record, k: nat, now: int, n: nat)
    requires k <= WindowMaxRequests && rec == Record(Number(k as real), Number(now))
    ensures forall i :: 0 <= i < n ==> (Burst(MissingDefaults, rec, now, n)[i] == Admit <==> i < k)
    decreases n
  {
    if n > 0 {
      var k' := if k == 0 then 0 else k - 1;
      var d := if k == 0 then TooManyRequests else Admit;
      assert Evaluate(MissingDefaults, rec, now) == Step(d, Bucket(k' as real, now));
      IntendedBurstAdmitsExactlyStored(Record(Number(k' as real), Number(now)), k', now, n - 1);
      var rest := Burst(MissingDefaults, Record(Number(k' as real), Number(now)), now, n - 1);
      assert Burst(MissingDefaults, rec, now, n) == [d] + rest;
    }
  }

  /** As written, a bucket holding a fractional count `x` is limited as
      intended at one instant: it admits `floor(x)` requests and then
      rejects, since its count never reaches exactly zero. */
  lemma {:induction false} FractionalBurstAdmitsFloor(rec: Record, x: real, now: int, n: nat)
    requires 0.0 <= x <= Capacity && x.Floor as real != x
    requires rec == Record(Number(x), Number(now))
    ensures forall i :: 0 <= i < n ==> (Burst(FalsyDefaults, rec, now, n)[i] == Admit <==> i < x.Floor)
    decreases n
  {
    if n > 0 {
      var x' := if x >= 1.0 then x - 1.0 else x;
      var d := if x >= 1.0 then Admit else TooManyRequests;
      assert Evaluate(FalsyDefaults, rec, now) == Step(d, Bucket(x', now));
      assert x >= 1.0 ==> x'.Floor == x.Floor - 1;
      assert x < 1.0 ==> x.Floor == 0;
      FractionalBurstAdmitsFloor(Record(Number(x'), Number(now)), x', now, n - 1);
      var rest := Burst(FalsyDefaults, Record(Number(x'), Number(now)), now, n - 1);
      assert Burst(FalsyDefaults, rec, now, n) == [d] + rest;
    }
  }

  /** As written, `n` requests at one instant on `k` whole tokens leave
      `k - n` of them while `n <= k`; one more finds 0, reads it as full and
      leaves `Capacity - 1`. */
  lemma {:induction false} WholeCountDrainsThenResets(rec: Record, k: nat, now: int, n: nat)
    requires n <= k + 1 && k <= WindowMaxRequests
    requires rec == Record(Number(k as real), Number(now))
    ensures n <= k ==> BurstRecord(FalsyDefaults, rec, now, n) == Record(Number((k - n) as real), Number(now))
    ensures n == k + 1 ==> BurstRecord(FalsyDefaults, rec, now, n) == Record(Number(Capacity - 1.0), Number(now))
    decreases n
  {
    if n > 0 {
      if k == 0 {
        assert Evaluate(FalsyDefaults, rec, now) == Step(Admit, Bucket(Capacity - 1.0, now));
      } else {
        var next := Record(Number((k - 1) as real), Number(now));
        assert Evaluate(FalsyDefaults, rec, now) == Step(Admit, Bucket((k - 1) as real, now));
        WholeCountDrainsThenResets(next, k - 1, now, n - 1);
      }
    }
  }

  /** As written, eleven requests at one instant from a new key leave the
      bucket where the first one left it: 9 tokens, `last` = `now`. */
  lemma ElevenRequestsLeaveNine(now: int)
    ensures BurstRecord(FalsyDefaults, NoRecord, now, 11) == Record(Number(9.0), Number(now))
  {
    var nine := Record(Number(9.0), Number(now));
    assert Evaluate(FalsyDefaults, NoRecord, now) == Step(Admit, Bucket(9.0, now));
    WholeCountDrainsThenResets(nine, 9, now, 10);
  }

  /** When only missing fields are defaulted, a bucket holding any count `x`
      in range admits exactly `floor(x)` requests at one instant, then rejects. */
  lemma {:induction false} IntendedBurstAdmitsFloor(rec: Record, x: real, now: int, n: nat)
    requires 0.0 <= x <= Capacity
    requires rec == Record(Number(x), Number(now))
    ensures forall i :: 0 <= i < n ==> (Burst(MissingDefaults, rec, now, n)[i] == Admit <==> i < x.Floor)
    decreases n
  {
    if n > 0 {
      var x' := if x >= 1.0 then x - 1.0 else x;
      var d := if x >= 1.0 then Admit else TooManyRequests;
      assert Evaluate(MissingDefaults, rec, now) == Step(d, Bucket(x', now));
      assert x >= 1.0 ==> x'.Floor == x.Floor - 1;
      assert x < 1.0 ==> x.Floor == 0;
      IntendedBurstAdmitsFloor(Record(Number(x'), Number(now)), x', now, n - 1);
      var rest := Burst(MissingDefaults, Record(Number(x'), Number(now)), now, n - 1);
      assert Burst(MissingDefaults, rec, now, n) == [d] + rest;
    }
  }

  /** When only missing fields are defaulted, a key seen for the first time
      admits exactly `Capacity` requests at one instant and rejects the rest. */
  lemma IntendedFreshKeyBurst(now: int, n: nat)
    ensures forall i :: 0 <= i < n ==>
              (Burst(MissingDefaults, NoRecord, now, n)[i] == Admit <==> i < WindowMaxRequests)
  {
    if n > 0 {
      var k := WindowMaxRequests - 1;
      assert Evaluate(MissingDefaults, NoRecord, now) == Step(Admit, Bucket(k as real, now));
      IntendedBurstAdmitsExactlyStored(Record(Number(k as real), Number(now)), k, now, n - 1);
      var rest := Burst(MissingDefaults, Record(Number(k as real), Number(now)), now, n - 1);
      assert Burst(MissingDefaults, NoRecord, now, n) == [Admit] + rest;
    }
  }

  /** When only missing fields are defaulted, a drained bucket stays drained
      at the same instant and regains exactly one admission 6000 ms later. */
  lemma IntendedDrainedBucketRefillsOneToken(last: int)
    ensures Evaluate(MissingDefaults, Record(Number(0.0), Number(last)), last)
         == Step(TooManyRequests, Bucket(0.0, last))
    ensures Evaluate(MissingDefaults, Record(Number(0.0), Number(last)), last + 6000)
         == Step(Admit, Bucket(0.0, last + 6000))
  {
  }
}
