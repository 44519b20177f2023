/**
 The token-bucket limiter (crates/qfc-policy/src/rate_limit.rs), with tokens as
 exact reals. Calls are taken in the order they hold the lock; each carries the
 clock value it read before taking it, so times need not ascend.
 */
module RateLimit {
  import opened Bytes

  datatype Bucket = Bucket(tokens: real, lastRefillUnixMs: int)

  type Buckets = map<Bytes, Bucket>

  datatype Call = Call(key: Bytes, capacity: nat, refillPerSecs: nat, now: int)

  function Max(a: int, b: int): int { if a >= b then a else b }

  /** Tokens that `dt` milliseconds are worth at one token per `refillPerSecs` seconds. */
  function Worth(dt: int, refillPerSecs: nat): real
    requires refillPerSecs > 0
  {
    dt as real / (1000 * refillPerSecs) as real
  }

  function Refilled(b: Bucket, call: Call): Bucket {
    if call.refillPerSecs == 0 then b
    else
      var full := b.tokens + Worth(Max(call.now - b.lastRefillUnixMs, 0), call.refillPerSecs);
      Bucket(if full <= call.capacity as real then full else call.capacity as real, call.now)
  }

  /** One `try_acquire`: whether a token was taken, and the buckets after. */
  function Acquire(m: Buckets, call: Call): (r: (bool, Buckets)) {
    if call.capacity == 0 then (false, m)
    else
      var entry := if call.key in m then m[call.key] else Bucket(call.capacity as real, call.now);
      var b := Refilled(entry, call);
      if b.tokens >= 1.0 then (true, m[call.key := b.(tokens := b.tokens - 1.0)])
      else (false, m[call.key := b])
  }

  class TokenBucketLimiter {
    var inner: Buckets

    constructor ()
      ensures inner == map[]
    {
      inner := map[];
    }

    method TryAcquire(key: Bytes, capacity: nat, refillPerSecs: nat, now: int) returns (ok: bool)
      modifies this
      ensures (ok, inner) == Acquire(old(inner), Call(key, capacity, refillPerSecs, now))
    {
      if capacity == 0 {
        return false;
      }
      ghost var before := inner;
      var cap := capacity as real;
      if key !in inner {
        inner := inner[key := Bucket(cap, now)];
      }
      if refillPerSecs > 0 {
        var dt := Max(now - inner[key].lastRefillUnixMs, 0);
        var tokens := inner[key].tokens + Worth(dt, refillPerSecs);
        inner := inner[key := Bucket(if tokens <= cap then tokens else cap, now)];
      }
      if inner[key].tokens >= 1.0 {
        inner := inner[key := inner[key].(tokens := inner[key].tokens - 1.0)];
        ok := true;
      } else {
        ok := false;
      }
      assert inner == before[key := inner[key]];
    }
  }

  // ------------------------------------------------------------ runs

  function After(m: Buckets, calls: seq<Call>): Buckets
    decreases |calls|
  {
    if calls == [] then m else After(Acquire(m, calls[0]).1, calls[1..])
  }

  /** Tokens granted to `key` over a run. */
  function Grants(m: Buckets, calls: seq<Call>, key: Bytes): nat
    decreases |calls|
  {
    if calls == [] then 0
    else
      var (ok, next) := Acquire(m, calls[0]);
      (if ok && calls[0].key == key then 1 else 0) + Grants(next, calls[1..], key)
  }

  lemma {:induction false} RunConcat(m: Buckets, a: seq<Call>, b: seq<Call>, key: Bytes)
    ensures After(m, a + b) == After(After(m, a), b)
    ensures Grants(m, a + b, key) == Grants(m, a, key) + Grants(After(m, a), b, key)
    decreases |a|
  {
    hide Acquire;
    if a == [] {
      assert a + b == b;
    } else {
      assert (a + b)[1..] == a[1..] + b;
      RunConcat(Acquire(m, a[0]).1, a[1..], b, key);
    }
  }

  /** The calls for `key` all name the same capacity and refill rate. */
  ghost predicate Uniform(calls: seq<Call>, key: Bytes, capacity: nat, refill: nat) {
    forall i :: 0 <= i < |calls| && calls[i].key == key
        ==> calls[i].capacity == capacity && calls[i].refillPerSecs == refill
  }

  ghost predicate Within(m: Buckets, key: Bytes, capacity: nat) {
    key in m ==> 0.0 <= m[key].tokens <= capacity as real
  }

  /** Time gained over the calls for `key`, starting from `last`: forward moves only. */
  function Rise(calls: seq<Call>, key: Bytes, last: int): (r: nat) {
    if calls == [] then 0
    else if calls[0].key != key then Rise(calls[1..], key, last)
    else Max(calls[0].now - last, 0) + Rise(calls[1..], key, calls[0].now)
  }

  lemma WorthSum(a: nat, b: nat, refill: nat)
    requires refill > 0
    ensures Worth(a + b, refill) == Worth(a, refill) + Worth(b, refill)
    ensures Worth(a, refill) >= 0.0
  {
    var q := (1000 * refill) as real;
    assert (a as real + b as real) / q == a as real / q + b as real / q;
  }

  /** Tokens stay between zero and the capacity, and no other key is touched. */
  lemma AcquireKeepsWithin(m: Buckets, call: Call, key: Bytes, capacity: nat)
    requires Within(m, key, capacity)
    requires call.key == key ==> call.capacity == capacity
    ensures Within(Acquire(m, call).1, key, capacity)
    ensures call.key != key
            ==> (key in Acquire(m, call).1 <==> key in m) && (key in m ==> Acquire(m, call).1[key] == m[key])
  {
    if call.key == key && call.refillPerSecs > 0 && key in m {
      WorthSum(Max(call.now - m[key].lastRefillUnixMs, 0), 0, call.refillPerSecs);
    }
  }

  lemma {:induction false} RunKeepsWithin(m: Buckets, calls: seq<Call>, key: Bytes, capacity: nat, refill: nat)
    requires Within(m, key, capacity) && Uniform(calls, key, capacity, refill)
    ensures Within(After(m, calls), key, capacity)
    decreases |calls|
  {
    hide Within, Acquire;
    if calls != [] {
      AcquireKeepsWithin(m, calls[0], key, capacity);
      RunKeepsWithin(Acquire(m, calls[0]).1, calls[1..], key, capacity, refill);
    }
  }

  /** One call never grants more than the level before plus the time gained pays for. */
  lemma AcquireAccounts(m: Buckets, call: Call)
    requires call.key in m && Within(m, call.key, call.capacity) && call.refillPerSecs > 0
    ensures var (ok, next) := Acquire(m, call);
            && call.key in next
            && (call.capacity > 0 ==> next[call.key].lastRefillUnixMs == call.now)
            && (if ok then 1.0 else 0.0) + next[call.key].tokens
               <= m[call.key].tokens + Worth(Max(call.now - m[call.key].lastRefillUnixMs, 0), call.refillPerSecs)
  {
    WorthSum(Max(call.now - m[call.key].lastRefillUnixMs, 0), 0, call.refillPerSecs);
  }

  /** The account of a whole run: grants never exceed the opening level plus the time gained. */
  lemma {:induction false} GrantsAccount(m: Buckets, calls: seq<Call>, key: Bytes, capacity: nat, refill: nat)
    requires capacity > 0 && refill > 0 && key in m && Within(m, key, capacity) && Uniform(calls, key, capacity, refill)
    ensures Grants(m, calls, key) as real <= m[key].tokens + Worth(Rise(calls, key, m[key].lastRefillUnixMs), refill)
    decreases |calls|
  {
    hide Acquire, Worth;
    if calls == [] {
      WorthSum(0, 0, refill);
    } else {
      var call := calls[0];
      var (ok, next) := Acquire(m, call);
      AcquireKeepsWithin(m, call, key, capacity);
      if call.key == key {
        AcquireAccounts(m, call);
        WorthSum(Max(call.now - m[key].lastRefillUnixMs, 0), Rise(calls[1..], key, call.now), refill);
      }
      GrantsAccount(next, calls[1..], key, capacity, refill);
    }
  }

  /** The time of the first call for `key`. */
  function FirstTime(calls: seq<Call>, key: Bytes): int
    requires exists i :: 0 <= i < |calls| && calls[i].key == key
  {
    if calls[0].key == key then calls[0].now
    else
      assert exists i :: 0 <= i < |calls[1..]| && calls[1..][i].key == key by {
        var i :| 0 <= i < |calls| && calls[i].key == key;
        assert calls[1..][i - 1].key == key;
      }
      FirstTime(calls[1..], key)
  }

  /**
   The rate-limit law. Over any window of calls, from any reachable state, the
   tokens granted to a key are at most its capacity plus what the time gained
   between its calls pays for.
   */
  lemma {:induction false} WindowBound(m: Buckets, calls: seq<Call>, key: Bytes, capacity: nat, refill: nat)
    requires refill > 0 && Within(m, key, capacity) && Uniform(calls, key, capacity, refill)
    requires exists i :: 0 <= i < |calls| && calls[i].key == key
    ensures Grants(m, calls, key) as real <= capacity as real + Worth(Rise(calls, key, FirstTime(calls, key)), refill)
    decreases |calls|
  {
    var call := calls[0];
    var (ok, next) := Acquire(m, call);
    if call.key != key {
      hide Acquire, Worth;
      AcquireKeepsWithin(m, call, key, capacity);
      assert exists i :: 0 <= i < |calls[1..]| && calls[1..][i].key == key by {
        var i :| 0 <= i < |calls| && calls[i].key == key;
        assert calls[1..][i - 1].key == key;
      }
      WindowBound(next, calls[1..], key, capacity, refill);
    } else if capacity == 0 {
      NoCapacityNoGrants(m, calls, key, refill);
      WorthSum(Rise(calls, key, call.now), 0, refill);
    } else {
      AcquireKeepsWithin(m, call, key, capacity);
      GrantsAccount(next, calls[1..], key, capacity, refill);
    }
  }

  /** So it is for every window of every run of a new limiter. */
  lemma WindowInRun(before: seq<Call>, window: seq<Call>, key: Bytes, capacity: nat, refill: nat)
    requires refill > 0 && Uniform(before, key, capacity, refill) && Uniform(window, key, capacity, refill)
    requires exists i :: 0 <= i < |window| && window[i].key == key
    ensures Grants(map[], before + window, key) as real
            <= Grants(map[], before, key) as real + capacity as real
               + Worth(Rise(window, key, FirstTime(window, key)), refill)
  {
    hide Grants, Rise, Worth, FirstTime, After;
    RunKeepsWithin(map[], before, key, capacity, refill);
    RunConcat(map[], before, window, key);
    WindowBound(After(map[], before), window, key, capacity, refill);
  }

  lemma {:induction false} NoCapacityNoGrants(m: Buckets, calls: seq<Call>, key: Bytes, refill: nat)
    requires Uniform(calls, key, 0, refill)
    ensures Grants(m, calls, key) == 0
    decreases |calls|
  {
    if calls != [] {
      NoCapacityNoGrants(Acquire(m, calls[0]).1, calls[1..], key, refill);
    }
  }

  /** Without refill the capacity is a budget for ever. */
  lemma {:induction false} FixedBudget(m: Buckets, calls: seq<Call>, key: Bytes, capacity: nat)
    requires Within(m, key, capacity) && Uniform(calls, key, capacity, 0)
    ensures Grants(m, calls, key) as real <= if key in m then m[key].tokens else capacity as real
    decreases |calls|
  {
    if calls != [] {
      AcquireKeepsWithin(m, calls[0], key, capacity);
      FixedBudget(Acquire(m, calls[0]).1, calls[1..], key, capacity);
    }
  }

  // ------------------------------------------------------------ what is never refused

  /** A key seen for the first time, or left alone for one refill period, gets a token. */
  lemma WaitEarnsToken(m: Buckets, call: Call)
    requires call.capacity > 0 && Within(m, call.key, call.capacity)
    requires call.key in m ==>
               call.refillPerSecs > 0 && call.now - m[call.key].lastRefillUnixMs >= 1000 * call.refillPerSecs
    ensures Acquire(m, call).0
  {
    if call.key in m {
      var period := 1000 * call.refillPerSecs;
      var over := call.now - m[call.key].lastRefillUnixMs - period;
      WorthSum(period, over, call.refillPerSecs);
      WorthSum(over, 0, call.refillPerSecs);
      assert Worth(period, call.refillPerSecs) == 1.0;
    }
  }

  /** Calls that all come at one instant, for one key. */
  ghost predicate Burst(calls: seq<Call>, call: Call) {
    forall i :: 0 <= i < |calls| ==> calls[i] == call
  }

  function Min(a: nat, b: nat): nat { if a <= b then a else b }

  lemma {:induction false} BurstFromLevel(m: Buckets, calls: seq<Call>, call: Call, level: nat)
    requires Burst(calls, call) && call.key in m && m[call.key] == Bucket(level as real, call.now)
    requires level <= call.capacity
    ensures Grants(m, calls, call.key) == Min(|calls|, level)
    decreases |calls|
  {
    if calls != [] {
      if call.refillPerSecs > 0 { WorthSum(0, 0, call.refillPerSecs); }
      var (ok, next) := Acquire(m, call);
      assert ok <==> level >= 1;
      BurstFromLevel(next, calls[1..], call, if ok then level - 1 else level);
    }
  }

  /** A burst on a new key is granted exactly up to the capacity. */
  lemma BurstGranted(m: Buckets, calls: seq<Call>, call: Call)
    requires Burst(calls, call) && call.key !in m
    ensures Grants(m, calls, call.key) == Min(|calls|, call.capacity)
  {
    if calls != [] {
      if call.capacity == 0 {
        NoCapacityNoGrants(m, calls, call.key, call.refillPerSecs);
      } else {
        if call.refillPerSecs > 0 { WorthSum(0, 0, call.refillPerSecs); }
        var (ok, next) := Acquire(m, call);
        assert ok && next[call.key] == Bucket((call.capacity - 1) as real, call.now);
        BurstFromLevel(next, calls[1..], call, call.capacity - 1);
      }
    }
  }

  // ------------------------------------------------------------ clock order

  /** The time of the last call for `key`, or `last` if there is none. */
  function LastTime(calls: seq<Call>, key: Bytes, last: int): int {
    if calls == [] then last
    else LastTime(calls[1..], key, if calls[0].key == key then calls[0].now else last)
  }

  /** How far times stepped back between calls for `key`: the slack of interleaved clock reads. */
  function Fall(calls: seq<Call>, key: Bytes, last: int): (r: nat) {
    if calls == [] then 0
    else if calls[0].key != key then Fall(calls[1..], key, last)
    else Max(last - calls[0].now, 0) + Fall(calls[1..], key, calls[0].now)
  }

  /** Time gained is time elapsed plus time lost to out-of-order reads. */
  lemma {:induction false} RiseIsElapsedPlusFall(calls: seq<Call>, key: Bytes, last: int)
    ensures Rise(calls, key, last) == LastTime(calls, key, last) - last + Fall(calls, key, last)
  {
    if calls != [] {
      RiseIsElapsedPlusFall(calls[1..], key, if calls[0].key == key then calls[0].now else last);
    }
  }

  ghost predicate ClockOrder(calls: seq<Call>) {
    forall i, j :: 0 <= i < j < |calls| ==> calls[i].now <= calls[j].now
  }

  lemma {:induction false} NoFallInOrder(calls: seq<Call>, key: Bytes, last: int)
    requires ClockOrder(calls) && forall i :: 0 <= i < |calls| ==> last <= calls[i].now
    ensures Fall(calls, key, last) == 0
  {
    if calls != [] {
      NoFallInOrder(calls[1..], key, if calls[0].key == key then calls[0].now else last);
    }
  }

  lemma {:induction false} FirstTimeSkips(calls: seq<Call>, key: Bytes)
    requires exists i :: 0 <= i < |calls| && calls[i].key == key
    ensures ClockOrder(calls) ==> Fall(calls, key, FirstTime(calls, key)) == 0
  {
    if calls[0].key == key {
      if ClockOrder(calls) { NoFallInOrder(calls, key, calls[0].now); }
    } else {
      assert exists i :: 0 <= i < |calls[1..]| && calls[1..][i].key == key by {
        var i :| 0 <= i < |calls| && calls[i].key == key;
        assert calls[1..][i - 1].key == key;
      }
      FirstTimeSkips(calls[1..], key);
    }
  }

  /** In clock order the bound is capacity plus elapsed time, and nothing more. */
  lemma ClockOrderBound(m: Buckets, calls: seq<Call>, key: Bytes, capacity: nat, refill: nat)
    requires refill > 0 && Within(m, key, capacity) && Uniform(calls, key, capacity, refill)
    requires ClockOrder(calls) && exists i :: 0 <= i < |calls| && calls[i].key == key
    ensures var first := FirstTime(calls, key);
            Grants(m, calls, key) as real <= capacity as real + Worth(LastTime(calls, key, first) - first, refill)
  {
    hide Grants, Rise, Worth, FirstTime, LastTime, Fall;
    WindowBound(m, calls, key, capacity, refill);
    RiseIsElapsedPlusFall(calls, key, FirstTime(calls, key));
    FirstTimeSkips(calls, key);
  }
}
