/**
 Exactly when the limiter (crates/qfc-policy/src/rate_limit.rs) grants a token. A
 call is refused if and only if one more token would overdraw some window that ends
 at it. So refused calls cost nothing, and no token is withheld.
 */
module RateExact {
  import opened Bytes
  import opened RateLimit

  /** One more token for `key`, on top of those the window grants, is within the capacity and the time gained. */
  ghost predicate Affords(m: Buckets, window: seq<Call>, call: Call, since: int, level: real)
    requires call.refillPerSecs > 0
  {
    Grants(m, window, call.key) as real + 1.0
    <= level + Worth(Rise(window + [call], call.key, since), call.refillPerSecs)
  }

  /** The window from call j on affords one more token on a full bucket. */
  ghost predicate WindowAffords(m: Buckets, calls: seq<Call>, call: Call, j: nat)
    requires j < |calls| && call.refillPerSecs > 0
  {
    Affords(After(m, calls[..j]), calls[j..], call, calls[j].now, call.capacity as real)
  }

  ghost predicate WindowsAfford(m: Buckets, calls: seq<Call>, call: Call)
    requires call.refillPerSecs > 0
  {
    forall j: nat :: j < |calls| && calls[j].key == call.key ==> WindowAffords(m, calls, call, j)
  }

  lemma RiseCons(calls: seq<Call>, call: Call, last: int)
    requires calls != []
    ensures calls[0].key != call.key ==>
              Rise(calls + [call], call.key, last) == Rise(calls[1..] + [call], call.key, last)
    ensures calls[0].key == call.key ==>
              Rise(calls + [call], call.key, last)
              == Max(calls[0].now - last, 0) + Rise(calls[1..] + [call], call.key, calls[0].now)
  {
    assert (calls + [call])[1..] == calls[1..] + [call];
  }

  /** The windows of a run are the window of its first call and the windows of the rest. */
  lemma WindowsCons(m: Buckets, calls: seq<Call>, call: Call)
    requires calls != [] && call.refillPerSecs > 0
    ensures var next := Acquire(m, calls[0]).1;
            WindowsAfford(m, calls, call)
            <==> (calls[0].key == call.key ==> WindowAffords(m, calls, call, 0))
                 && WindowsAfford(next, calls[1..], call)
  {
    hide Acquire, Affords;
    var next, rest := Acquire(m, calls[0]).1, calls[1..];
    forall j: nat | j < |rest|
      ensures WindowAffords(next, rest, call, j) == WindowAffords(m, calls, call, j + 1)
      ensures rest[j] == calls[j + 1]
    {
      assert calls[..j + 1] == [calls[0]] + rest[..j] && calls[j + 1..] == rest[j..];
      assert After(m, calls[..j + 1]) == After(next, rest[..j]) by {
        assert ([calls[0]] + rest[..j])[1..] == rest[..j];
      }
    }
    if WindowsAfford(m, calls, call) {
      forall j: nat | j < |rest| && rest[j].key == call.key ensures WindowAffords(next, rest, call, j) {
        assert WindowAffords(m, calls, call, j + 1);
      }
    }
    if WindowsAfford(next, rest, call) && (calls[0].key == call.key ==> WindowAffords(m, calls, call, 0)) {
      forall j: nat | j < |calls| && calls[j].key == call.key ensures WindowAffords(m, calls, call, j) {
        if j > 0 { assert WindowAffords(next, rest, call, j - 1); }
      }
    }
  }

  /** A call on an existing bucket: granted exactly when the level and the time gained afford it. */
  lemma GrantedNow(m: Buckets, call: Call)
    requires call.key in m && call.refillPerSecs > 0
    ensures Acquire(m, call).0
            <==> call.capacity > 0 && Affords(m, [], call, m[call.key].lastRefillUnixMs, m[call.key].tokens)
  {
    var last := m[call.key].lastRefillUnixMs;
    assert [] + [call] == [call];
    assert Rise([call], call.key, last) == Max(call.now - last, 0);
  }

  /** What one call leaves in its bucket. */
  lemma LevelNow(m: Buckets, call: Call)
    requires call.key in m && call.capacity > 0 && call.refillPerSecs > 0
    ensures var (ok, next) := Acquire(m, call);
            var full := m[call.key].tokens + Worth(Max(call.now - m[call.key].lastRefillUnixMs, 0), call.refillPerSecs);
            && call.key in next && next[call.key].lastRefillUnixMs == call.now
            && next[call.key].tokens + (if ok then 1.0 else 0.0)
               == if full <= call.capacity as real then full else call.capacity as real
  {
  }

  /** The level before the first call affords one more token iff the level after it does and the full bucket does. */
  lemma AffordsStep(m: Buckets, calls: seq<Call>, call: Call)
    requires calls != [] && calls[0].key == call.key && call.key in m && call.refillPerSecs > 0 && call.capacity > 0
    requires calls[0].capacity == call.capacity && calls[0].refillPerSecs == call.refillPerSecs
    ensures var next := Acquire(m, calls[0]).1;
            && call.key in next
            && (Affords(next, calls[1..], call, next[call.key].lastRefillUnixMs, next[call.key].tokens)
                <==> Affords(m, calls, call, m[call.key].lastRefillUnixMs, m[call.key].tokens)
                     && WindowAffords(m, calls, call, 0))
  {
    hide Acquire, Worth, Rise;
    var first, rest := calls[0], calls[1..];
    var last := m[call.key].lastRefillUnixMs;
    LevelNow(m, first);
    RiseCons(calls, call, last);
    RiseCons(calls, call, first.now);
    WorthSum(Max(first.now - last, 0), Rise(rest + [call], call.key, first.now), call.refillPerSecs);
    WorthSum(0, Rise(rest + [call], call.key, first.now), call.refillPerSecs);
    assert calls[..0] == [] && calls[0..] == calls;
  }

  /**
   The token-bucket law, both ways, over any run of calls in any clock order: a call
   is granted if and only if one more token is affordable for the level the run began
   with and for every window that begins at an earlier call for the key.
   */
  lemma {:induction false} GrantedExactly(m: Buckets, calls: seq<Call>, call: Call)
    requires call.refillPerSecs > 0 && Uniform(calls, call.key, call.capacity, call.refillPerSecs)
    ensures Acquire(After(m, calls), call).0
            <==> && call.capacity > 0
                 && (call.key in m ==> Affords(m, calls, call, m[call.key].lastRefillUnixMs, m[call.key].tokens))
                 && WindowsAfford(m, calls, call)
    decreases |calls|
  {
    hide Acquire, Affords, WindowAffords;
    if call.capacity == 0 {
      assert !Acquire(After(m, calls), call).0 by { NoCapacity(After(m, calls), call); }
    } else if calls == [] {
      if call.key in m { GrantedNow(m, call); } else { GrantedNew(m, call); }
    } else {
      var first, next := calls[0], Acquire(m, calls[0]).1;
      GrantedExactly(next, calls[1..], call);
      WindowsCons(m, calls, call);
      if first.key != call.key {
        AffordsSkip(m, calls, call);
      } else if call.key in m {
        AffordsStep(m, calls, call);
      } else {
        AffordsNew(m, calls, call);
      }
    }
  }

  lemma NoCapacity(m: Buckets, call: Call)
    requires call.capacity == 0
    ensures !Acquire(m, call).0
  {
  }

  lemma GrantedNew(m: Buckets, call: Call)
    requires call.key !in m && call.capacity > 0
    ensures Acquire(m, call).0
  {
    if call.refillPerSecs > 0 { WorthSum(0, 0, call.refillPerSecs); }
  }

  /** A call for another key changes neither the bucket nor what is affordable. */
  lemma AffordsSkip(m: Buckets, calls: seq<Call>, call: Call)
    requires calls != [] && calls[0].key != call.key && call.refillPerSecs > 0
    ensures var next := Acquire(m, calls[0]).1;
            && (call.key in next <==> call.key in m)
            && (call.key in m ==>
                  && next[call.key] == m[call.key]
                  && (Affords(next, calls[1..], call, m[call.key].lastRefillUnixMs, m[call.key].tokens)
                      <==> Affords(m, calls, call, m[call.key].lastRefillUnixMs, m[call.key].tokens)))
  {
    hide Worth, Rise;
    if call.key in m { RiseCons(calls, call, m[call.key].lastRefillUnixMs); }
  }

  /** The first call for a key fills its bucket: from then on its window is what counts. */
  lemma AffordsNew(m: Buckets, calls: seq<Call>, call: Call)
    requires calls != [] && calls[0].key == call.key && call.key !in m && call.refillPerSecs > 0 && call.capacity > 0
    requires calls[0].capacity == call.capacity && calls[0].refillPerSecs == call.refillPerSecs
    ensures var next := Acquire(m, calls[0]).1;
            && call.key in next
            && (Affords(next, calls[1..], call, next[call.key].lastRefillUnixMs, next[call.key].tokens)
                <==> WindowAffords(m, calls, call, 0))
  {
    var full := m[call.key := Bucket(call.capacity as real, calls[0].now)];
    SameAsFull(m, calls[0]);
    assert Acquire(m, calls[0]) == Acquire(full, calls[0]);
    AffordsStep(full, calls, call);
    assert calls[..0] == [] && calls[0..] == calls;
    assert Grants(m, calls, call.key) == Grants(full, calls, call.key);
  }

  lemma SameAsFull(m: Buckets, call: Call)
    requires call.key !in m && call.capacity > 0
    ensures Acquire(m, call) == Acquire(m[call.key := Bucket(call.capacity as real, call.now)], call)
  {
    var full := m[call.key := Bucket(call.capacity as real, call.now)];
    var b := Acquire(full, call).1[call.key];
    assert m[call.key := b] == full[call.key := b];
  }

  // ------------------------------------------------------------ in clock order, in plain arithmetic

  lemma {:induction false} RiseInOrder(calls: seq<Call>, call: Call, last: int)
    requires ClockOrder(calls + [call]) && (forall c :: c in calls + [call] ==> last <= c.now)
    ensures Rise(calls + [call], call.key, last) == call.now - last
    decreases |calls|
  {
    if calls == [] {
      assert [] + [call] == [call];
    } else {
      var more := calls + [call];
      RiseCons(calls, call, last);
      assert more[1..] == calls[1..] + [call];
      var from := if calls[0].key == call.key then calls[0].now else last;
      forall c | c in calls[1..] + [call] ensures from <= c.now {
        var k :| 1 <= k < |more| && more[k] == c;
        assert more[0].now <= more[k].now;
        assert last <= more[k].now;
      }
      RiseInOrder(calls[1..], call, from);
    }
  }

  /** Of the tokens granted from call j on and one more, those beyond the capacity took one refill period each. */
  ghost predicate WindowPaid(m: Buckets, calls: seq<Call>, call: Call, j: nat)
    requires j < |calls|
  {
    var tokens := Grants(After(m, calls[..j]), calls[j..], call.key) + 1;
    (tokens - call.capacity) * (1000 * call.refillPerSecs) <= call.now - calls[j].now
  }

  /** n tokens, with capacity for some of them, take a refill period for each of the others. */
  lemma PeriodsNeeded(n: int, capacity: nat, dt: nat, refill: nat)
    requires refill > 0
    ensures n as real <= capacity as real + Worth(dt, refill) <==> (n - capacity) * (1000 * refill) <= dt
  {
    var p := (1000 * refill) as real;
    var k := (n - capacity) as real;
    assert k <= dt as real / p <==> k * p <= dt as real by {
      assert (dt as real / p) * p == dt as real;
      if k <= dt as real / p { ScaleUp(k, dt as real / p, p); }
      if k > dt as real / p { ScaleUpStrictly(dt as real / p, k, p); }
    }
    assert k * p == ((n - capacity) * (1000 * refill)) as real;
  }

  lemma ScaleUp(a: real, b: real, p: real)
    requires a <= b && p > 0.0
    ensures a * p <= b * p
  {
  }

  lemma ScaleUpStrictly(a: real, b: real, p: real)
    requires a < b && p > 0.0
    ensures a * p < b * p
  {
  }

  /**
   From a new limiter, with clock reads in order: a call for a key is granted if and
   only if, for every earlier call for it, the tokens granted from that call on and one
   more exceed the capacity by at most one per refill period since.
   */
  lemma GrantedInClockOrder(calls: seq<Call>, call: Call)
    requires call.refillPerSecs > 0 && Uniform(calls, call.key, call.capacity, call.refillPerSecs)
    requires ClockOrder(calls + [call])
    ensures Acquire(After(map[], calls), call).0
            <==> && call.capacity > 0
                 && forall j: nat :: j < |calls| && calls[j].key == call.key ==> WindowPaid(map[], calls, call, j)
  {
    hide Acquire, After, WindowPaid, WindowAffords, Uniform, ClockOrder;
    GrantedExactly(map[], calls, call);
    forall j: nat | j < |calls| ensures WindowAffords(map[], calls, call, j) <==> WindowPaid(map[], calls, call, j) {
      WindowInOrder(map[], calls, call, j);
    }
  }

  lemma WindowInOrder(m: Buckets, calls: seq<Call>, call: Call, j: nat)
    requires j < |calls| && call.refillPerSecs > 0 && ClockOrder(calls + [call])
    ensures WindowAffords(m, calls, call, j)
            <==> WindowPaid(m, calls, call, j)
  {
    hide Acquire, Worth, Rise, Grants, After;
    var more, window := calls + [call], calls[j..];
    assert window + [call] == more[j..];
    forall i, k | 0 <= i < k < |more[j..]| ensures more[j..][i].now <= more[j..][k].now {
      assert more[j + i].now <= more[j + k].now;
    }
    forall c | c in window + [call] ensures calls[j].now <= c.now {
      var k :| j <= k < |more| && more[k] == c;
      assert more[j] == calls[j];
    }
    RiseInOrder(window, call, calls[j].now);
    assert more[j].now <= more[|calls|].now;
    PeriodsNeeded(Grants(After(m, calls[..j]), window, call.key) + 1, call.capacity, call.now - calls[j].now,
                  call.refillPerSecs);
  }

  /**
   Refusals cost nothing. From a bucket at some level, after any run in clock order
   that grants its key nothing, a call is granted exactly when the level and the whole
   time since the bucket was last refilled make a token, however often it was asked.
   */
  lemma RefusalsCostNothing(m: Buckets, calls: seq<Call>, call: Call)
    requires call.capacity > 0 && call.refillPerSecs > 0 && call.key in m
    requires Uniform(calls, call.key, call.capacity, call.refillPerSecs)
    requires ClockOrder(calls + [call]) && forall c :: c in calls + [call] ==> m[call.key].lastRefillUnixMs <= c.now
    requires Grants(m, calls, call.key) == 0
    ensures Acquire(After(m, calls), call).0
            <==> m[call.key].tokens
                 + (call.now - m[call.key].lastRefillUnixMs) as real / (1000 * call.refillPerSecs) as real >= 1.0
  {
    hide Acquire, Rise, Grants, After;
    GrantedExactly(m, calls, call);
    RiseInOrder(calls, call, m[call.key].lastRefillUnixMs);
    forall j: nat | j < |calls| ensures WindowAffords(m, calls, call, j) {
      GrantsOfPart(m, calls, call.key, j);
      WorthSum(Rise(calls[j..] + [call], call.key, calls[j].now), 0, call.refillPerSecs);
    }
  }

  lemma GrantsOfPart(m: Buckets, calls: seq<Call>, key: Bytes, j: nat)
    requires j <= |calls|
    ensures Grants(After(m, calls[..j]), calls[j..], key) <= Grants(m, calls, key)
  {
    assert calls == calls[..j] + calls[j..];
    RunConcat(m, calls[..j], calls[j..], key);
  }

  /** Without refill: granted exactly while the opening level covers what was granted and one more. */
  lemma {:induction false} GrantedFromBudget(m: Buckets, calls: seq<Call>, call: Call)
    requires call.refillPerSecs == 0 && call.capacity > 0 && Uniform(calls, call.key, call.capacity, 0)
    ensures Acquire(After(m, calls), call).0
            <==> Grants(m, calls, call.key) as real + 1.0
                 <= if call.key in m then m[call.key].tokens else call.capacity as real
    decreases |calls|
  {
    if calls != [] { GrantedFromBudget(Acquire(m, calls[0]).1, calls[1..], call); }
  }
}
