/** The per-second rate limiter: daemon/rate_limit_pure.cpp and the keyed map of daemon/rate_limit.cpp. */
module RateLimit {
  import opened Arithmetic

  datatype Bucket = Bucket(counter: int, second: int)

  const FRESH := Bucket(0, 0)

  datatype Decision = Decision(newState: Bucket, allowed: bool)

  /** RateLimitPure::check. */
  function CheckBucket(b: Bucket, now: int, max: int): Decision {
    if max <= 0 then Decision(Bucket(0, now), true)
    else if b.second != now then Decision(Bucket(1, now), true)
    else if b.counter < max then Decision(Bucket(b.counter + 1, now), true)
    else Decision(b, false)
  }

  type Buckets = map<string, Bucket>

  function BucketOf(m: Buckets, key: string): Bucket { if key in m then m[key] else FRESH }

  /** The global g_buckets and its two operations, each under the mutex. */
  class Limiter {
    var buckets: Buckets

    constructor ()
      ensures buckets == map[]
    {
      buckets := map[];
    }

    method Check(key: string, maxPerSecond: int, now: int) returns (allowed: bool)
      modifies this
      ensures allowed == CheckBucket(BucketOf(old(buckets), key), now, maxPerSecond).allowed
      ensures buckets == old(buckets)[key := CheckBucket(BucketOf(old(buckets), key), now, maxPerSecond).newState]
    {
      var b := if key in buckets then buckets[key] else FRESH;
      var d := CheckBucket(b, now, maxPerSecond);
      buckets := buckets[key := d.newState];
      allowed := d.allowed;
    }

    method Reset()
      modifies this
      ensures buckets == map[]
    {
      buckets := map[];
    }
  }

  // ---------- Runs ----------

  datatype Request = Request(key: string, now: int)

  /** The map after the first `n` requests; `caps` is the cap each key is checked with. */
  function After(caps: string -> int, reqs: seq<Request>, n: nat): Buckets
    requires n <= |reqs|
  {
    if n == 0 then map[]
    else
      var m, r := After(caps, reqs, n - 1), reqs[n - 1];
      m[r.key := CheckBucket(BucketOf(m, r.key), r.now, caps(r.key)).newState]
  }

  /** The answer to request `i`. */
  function Allows(caps: string -> int, reqs: seq<Request>, i: nat): bool
    requires i < |reqs|
  {
    CheckBucket(BucketOf(After(caps, reqs, i), reqs[i].key), reqs[i].now, caps(reqs[i].key)).allowed
  }

  /** A cap that is not positive is none. */
  lemma UncappedAllows(caps: string -> int, reqs: seq<Request>, i: nat)
    requires i < |reqs| && caps(reqs[i].key) <= 0
    ensures Allows(caps, reqs, i)
  {
  }

  predicate Hits(r: Request, key: string, s: int) { r.key == key && r.now == s }

  /** Requests of `key` in second `s` among the first `n`. */
  function Asked(reqs: seq<Request>, key: string, s: int, n: nat): nat
    requires n <= |reqs|
  {
    if n == 0 then 0 else Asked(reqs, key, s, n - 1) + if Hits(reqs[n - 1], key, s) then 1 else 0
  }

  /** How many of them were allowed. */
  function Granted(caps: string -> int, reqs: seq<Request>, key: string, s: int, n: nat): nat
    requires n <= |reqs|
  {
    if n == 0 then 0
    else Granted(caps, reqs, key, s, n - 1) + if Hits(reqs[n - 1], key, s) && Allows(caps, reqs, n - 1) then 1 else 0
  }

  /** The second of the last request of `key` among the first `n`; a key never seen is at the fresh bucket's. */
  function LastSecond(reqs: seq<Request>, key: string, n: nat): int
    requires n <= |reqs|
  {
    if n == 0 then FRESH.second else if reqs[n - 1].key == key then reqs[n - 1].now else LastSecond(reqs, key, n - 1)
  }

  /** The key comes back to second `s` after a request in another second. */
  predicate Returns(reqs: seq<Request>, key: string, s: int, n: nat)
    requires n <= |reqs|
  {
    n > 0 && (Returns(reqs, key, s, n - 1) ||
      (Hits(reqs[n - 1], key, s) && Asked(reqs, key, s, n - 1) > 0 && LastSecond(reqs, key, n - 1) != s))
  }

  /** `j` lies between two requests of `key` in second `s` and is one in another second. */
  predicate Interrupts(reqs: seq<Request>, key: string, s: int, i: int, j: int, k: int) {
    && 0 <= i < j < k < |reqs| && Hits(reqs[i], key, s) && Hits(reqs[k], key, s)
    && reqs[j].key == key && reqs[j].now != s
  }

  /** The requests of `key` in second `s` are consecutive among the requests of `key`. */
  ghost predicate Consecutive(reqs: seq<Request>, key: string, s: int) {
    forall i, j, k :: !Interrupts(reqs, key, s, i, j, k)
  }

  /**
   After some requests, for one second: without a return the grants are the capped requests, and so is the
   counter while the bucket is `here`, at that second. After a return at most cap requests are all granted, and
   of more than cap at least cap + 1.
   */
  ghost predicate Counted(asked: nat, granted: nat, cap: int, returned: bool, here: bool, counter: int) {
    && (!returned ==> granted == Min(asked, cap) && (here ==> counter == Min(asked, cap)))
    && (returned ==> Min(asked, cap + 1) <= granted <= asked && 0 < granted && (here ==> counter < granted))
  }

  /** One request of the key in the second at hand. */
  lemma CountedNext(asked: nat, granted: nat, cap: int, returned: bool, b: Bucket, s: int)
    requires cap > 0 && Counted(asked, granted, cap, returned, b.second == s, b.counter)
    requires b.second == s ==> b.counter <= cap
    ensures var d := CheckBucket(b, s, cap);
      && Counted(asked + 1, granted + (if d.allowed then 1 else 0), cap,
                 returned || (asked > 0 && b.second != s), true, d.newState.counter)
      && d.newState.counter <= cap
  {
  }

  lemma {:induction false} BucketIsLast(caps: string -> int, reqs: seq<Request>, key: string, n: nat)
    requires n <= |reqs| && caps(key) > 0
    ensures var b := BucketOf(After(caps, reqs, n), key); b.second == LastSecond(reqs, key, n) && b.counter <= caps(key)
  {
    if n > 0 { BucketIsLast(caps, reqs, key, n - 1); }
  }

  lemma {:induction false} RunCounts(caps: string -> int, reqs: seq<Request>, key: string, s: int, n: nat)
    requires n <= |reqs| && caps(key) > 0
    ensures var b := BucketOf(After(caps, reqs, n), key);
      Counted(Asked(reqs, key, s, n), Granted(caps, reqs, key, s, n), caps(key), Returns(reqs, key, s, n),
              b.second == s, b.counter)
  {
    if n > 0 {
      RunCounts(caps, reqs, key, s, n - 1);
      BucketIsLast(caps, reqs, key, n - 1);
      var b := BucketOf(After(caps, reqs, n - 1), key);
      if Hits(reqs[n - 1], key, s) {
        CountedNext(Asked(reqs, key, s, n - 1), Granted(caps, reqs, key, s, n - 1), caps(key),
                    Returns(reqs, key, s, n - 1), b, s);
      }
    }
  }

  // ---------- Returning to a second ----------

  lemma {:induction false} AskedOnce(reqs: seq<Request>, key: string, s: int, n: nat) returns (i: int)
    requires n <= |reqs|
    ensures Asked(reqs, key, s, n) > 0 ==> 0 <= i < n && Hits(reqs[i], key, s)
    ensures Asked(reqs, key, s, n) == 0 ==> forall k :: 0 <= k < n ==> !Hits(reqs[k], key, s)
  {
    i := 0;
    if n > 0 {
      i := AskedOnce(reqs, key, s, n - 1);
      if Hits(reqs[n - 1], key, s) { i := n - 1; }
    }
  }

  /** The last request of a key that has one. */
  lemma {:induction false} LastRequest(reqs: seq<Request>, key: string, n: nat, i: nat) returns (l: nat)
    requires i < n <= |reqs| && reqs[i].key == key
    ensures i <= l < n && reqs[l].key == key && reqs[l].now == LastSecond(reqs, key, n)
    ensures forall k :: l < k < n ==> reqs[k].key != key
  {
    if reqs[n - 1].key == key { l := n - 1; } else { l := LastRequest(reqs, key, n - 1, i); }
  }

  ghost predicate Interrupted(reqs: seq<Request>, key: string, s: int, n: nat) {
    exists i, j, k :: k < n && Interrupts(reqs, key, s, i, j, k)
  }

  lemma {:induction false} ReturnsIff(reqs: seq<Request>, key: string, s: int, n: nat)
    requires n <= |reqs|
    ensures Returns(reqs, key, s, n) <==> Interrupted(reqs, key, s, n)
  {
    if n > 0 {
      ReturnsIff(reqs, key, s, n - 1);
      if Returns(reqs, key, s, n) && !Returns(reqs, key, s, n - 1) {
        var i := AskedOnce(reqs, key, s, n - 1);
        var l := LastRequest(reqs, key, n - 1, i);
        assert Interrupts(reqs, key, s, i, l, n - 1);
      }
      if Interrupted(reqs, key, s, n) {
        var i, j, k :| k < n && Interrupts(reqs, key, s, i, j, k);
        InterruptionReturns(reqs, key, s, n, i, j, k);
      }
    }
  }

  lemma {:induction false} InterruptionReturns(reqs: seq<Request>, key: string, s: int, n: nat, i: int, j: int, k: int)
    requires 0 < n <= |reqs| && k < n && Interrupts(reqs, key, s, i, j, k)
    requires Returns(reqs, key, s, n - 1) <==> Interrupted(reqs, key, s, n - 1)
    ensures Returns(reqs, key, s, n)
  {
    if k == n - 1 {
      var h := AskedOnce(reqs, key, s, n - 1);
      var l := LastRequest(reqs, key, n - 1, j);
      if reqs[l].now == s {
        assert Interrupts(reqs, key, s, i, j, l);
      }
    }
  }

  // ---------- Main results ----------

  /**
   Over any interleaving of keys and any clock: in a second a key gets what it asks for up to its cap if
   and only if it asks for no more than the cap, or its requests of that second are consecutive.
   */
  lemma GrantedIsCappedIff(caps: string -> int, reqs: seq<Request>, key: string, s: int)
    requires caps(key) > 0
    ensures var asked := Asked(reqs, key, s, |reqs|);
      Granted(caps, reqs, key, s, |reqs|) == Min(asked, caps(key)) <==> Consecutive(reqs, key, s) || asked <= caps(key)
  {
    RunCounts(caps, reqs, key, s, |reqs|);
    ReturnsIff(reqs, key, s, |reqs|);
    assert Interrupted(reqs, key, s, |reqs|) <==> !Consecutive(reqs, key, s) by {
      if !Consecutive(reqs, key, s) {
        var i, j, k :| Interrupts(reqs, key, s, i, j, k);
        assert k < |reqs|;
      }
    }
  }

  /** The clock a key's own requests are made at does not step back. */
  ghost predicate ClockNeverBack(reqs: seq<Request>, key: string) {
    forall i, j :: 0 <= i < j < |reqs| && reqs[i].key == key && reqs[j].key == key ==> reqs[i].now <= reqs[j].now
  }

  /** Then a key gets in each second what it asks for, up to its cap. */
  lemma GrantedIsCapped(caps: string -> int, reqs: seq<Request>, key: string, s: int)
    requires ClockNeverBack(reqs, key) && caps(key) > 0
    ensures Granted(caps, reqs, key, s, |reqs|) == Min(Asked(reqs, key, s, |reqs|), caps(key))
  {
    assert Consecutive(reqs, key, s);
    GrantedIsCappedIff(caps, reqs, key, s);
  }

  /** And at every point its bucket holds the capped number of requests of its second. */
  lemma BucketCounts(caps: string -> int, reqs: seq<Request>, key: string, n: nat)
    requires ClockNeverBack(reqs, key) && n <= |reqs| && caps(key) > 0
    ensures var b := BucketOf(After(caps, reqs, n), key);
      b.second == LastSecond(reqs, key, n) && b.counter == Min(Asked(reqs, key, b.second, n), caps(key))
  {
    var b := BucketOf(After(caps, reqs, n), key);
    RunCounts(caps, reqs, key, b.second, n);
    BucketIsLast(caps, reqs, key, n);
    ReturnsIff(reqs, key, b.second, n);
    assert Consecutive(reqs, key, b.second);
  }

  /** The requests of one key alone. */
  function Only(reqs: seq<Request>, key: string, n: nat): seq<Request>
    requires n <= |reqs|
  {
    if n == 0 then []
    else if reqs[n - 1].key == key then Only(reqs, key, n - 1) + [reqs[n - 1]] else Only(reqs, key, n - 1)
  }

  lemma {:induction false} AfterPrefix(caps: string -> int, a: seq<Request>, r: Request, n: nat)
    requires n <= |a|
    ensures After(caps, a + [r], n) == After(caps, a, n)
  {
    if n > 0 { AfterPrefix(caps, a, r, n - 1); }
  }

  lemma {:induction false} AfterSnoc(caps: string -> int, a: seq<Request>, r: Request)
    ensures var m := After(caps, a, |a|);
      After(caps, a + [r], |a + [r]|) == m[r.key := CheckBucket(BucketOf(m, r.key), r.now, caps(r.key)).newState]
  {
    AfterPrefix(caps, a, r, |a|);
  }

  lemma {:induction false} AloneSameBucket(caps: string -> int, reqs: seq<Request>, key: string, n: nat)
    requires n <= |reqs|
    ensures var alone := Only(reqs, key, n);
      BucketOf(After(caps, reqs, n), key) == BucketOf(After(caps, alone, |alone|), key)
  {
    if n > 0 {
      AloneSameBucket(caps, reqs, key, n - 1);
      if reqs[n - 1].key == key {
        AfterSnoc(caps, Only(reqs, key, n - 1), reqs[n - 1]);
      }
    }
  }

  /** No key's traffic changes another key's answers: each request is answered as in a run of its key alone. */
  lemma KeysDoNotInterfere(caps: string -> int, reqs: seq<Request>, i: nat)
    requires i < |reqs|
    ensures var alone := Only(reqs, reqs[i].key, i + 1);
      alone != [] && alone[|alone| - 1] == reqs[i] && Allows(caps, reqs, i) == Allows(caps, alone, |alone| - 1)
  {
    var key := reqs[i].key;
    var before := Only(reqs, key, i);
    AloneSameBucket(caps, reqs, key, i);
    AfterPrefix(caps, before, reqs[i], |before|);
  }

  /** A witness: returning to a past second starts it afresh. */
  lemma ClockBackGrantsMore(caps: string -> int, key: string, s: int)
    requires caps(key) == 1 && s > 0
    ensures var reqs := [Request(key, s), Request(key, s + 1), Request(key, s)];
      Granted(caps, reqs, key, s, 3) == 2
  {
    var reqs := [Request(key, s), Request(key, s + 1), Request(key, s)];
    assert After(caps, reqs, 1) == map[key := Bucket(1, s)];
    assert After(caps, reqs, 2)[key] == Bucket(1, s + 1);
    assert Granted(caps, reqs, key, s, 1) == 1;
    assert Granted(caps, reqs, key, s, 2) == 1;
  }
}
