/** The `rateLimit` middleware of server.js: the Redis hashes are the map
    field `store`, and one call of `RateLimit` is one request. */
module Server {
  import opened TokenBucket

  class Limiter {
    /** The bucket hashes, keyed by client address (`req.ip`). */
    var store: map<string, Record>

    constructor (initial: map<string, Record>)
      ensures store == initial
    {
      store := initial;
    }

    /** Handles one request from `ip` at time `now`. `readFails` says whether
        `hGetAll` throws; the request is then let through and nothing is
        written. Otherwise the bucket under `ip`, and no other, is rewritten. */
    method RateLimit(ip: string, now: int, readFails: bool) returns (d: Decision)
      modifies this
      ensures readFails ==> d == Admit && store == old(store)
      ensures !readFails ==>
        var s := Evaluate(FalsyDefaults, Lookup(old(store), ip), now);
        d == s.decision && store == old(store)[ip := Stored(s.bucket)]
      ensures !readFails ==> ip in store && store[ip].last == Number(now)
      ensures forall k :: k != ip ==> Lookup(store, k) == Lookup(old(store), k)
      ensures InRange(old(store), now) ==> InRange(store, now)
    {
      if readFails {
        d := Admit;
        return;
      }
      var rec := Lookup(store, ip);
      var tokens := ReadTokens(rec.tokens, FalsyDefaults);
      var last := ReadLast(rec.last, now, FalsyDefaults);
      ghost var read := Bucket(tokens, last);
      assert read == ReadBucket(FalsyDefaults, rec, now);

      var elapsed := now - last;
      tokens := tokens + elapsed as real * RefreshRate;
      tokens := if tokens < Capacity then tokens else Capacity;
      last := now;
      assert tokens == Refill(read, now);

      if tokens >= 1.0 {
        tokens := tokens - 1.0;
        store := store[ip := Record(Number(tokens), Number(last))];
        d := Admit;
      } else {
        store := store[ip := Record(Number(tokens), Number(last))];
        d := TooManyRequests;
      }
      if InRange(old(store), now) {
        RequestKeepsStoreInRange(FalsyDefaults, old(store), ip, now, now);
      }
    }
  }
  /** `n` requests from `ip` at the same instant, handled one after another
      by `RateLimit` with a reachable store: the decisions are those of
      `Burst` as written, so a key with no bucket is never refused, and the
      hash left under `ip` is the one `BurstRecord` describes. */
  method SameInstantRequests(l: Limiter, ip: string, now: int, n: nat) returns (ds: seq<Decision>)
    modifies l
    ensures ds == Burst(FalsyDefaults, Lookup(old(l.store), ip), now, n)
    ensures Lookup(l.store, ip) == BurstRecord(FalsyDefaults, Lookup(old(l.store), ip), now, n)
    ensures n > 0 ==> ip in l.store
    ensures Lookup(old(l.store), ip) == NoRecord ==> forall i :: 0 <= i < n ==> ds[i] == Admit
    ensures forall k :: k != ip ==> Lookup(l.store, k) == Lookup(old(l.store), k)
  {
    ds := [];
    var i := 0;
    while i < n
      invariant 0 <= i <= n
      invariant ds + Burst(FalsyDefaults, Lookup(l.store, ip), now, n - i)
             == Burst(FalsyDefaults, Lookup(old(l.store), ip), now, n)
      invariant BurstRecord(FalsyDefaults, Lookup(l.store, ip), now, n - i)
             == BurstRecord(FalsyDefaults, Lookup(old(l.store), ip), now, n)
      invariant i > 0 ==> ip in l.store
      invariant forall k :: k != ip ==> Lookup(l.store, k) == Lookup(old(l.store), k)
    {
      ghost var before := Lookup(l.store, ip);
      var d := l.RateLimit(ip, now, false);
      assert Burst(FalsyDefaults, before, now, n - i)
          == [d] + Burst(FalsyDefaults, Lookup(l.store, ip), now, n - i - 1);
      ds := ds + [d];
      i := i + 1;
    }
    if Lookup(old(l.store), ip) == NoRecord {
      FreshKeyBurstNeverRejected(now, n);
    }
  }
}
