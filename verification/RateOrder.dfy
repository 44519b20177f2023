/**
 When the order of rate-limit rules matters (crates/qfc-policy/src/rule_set_policy.rs,
 crates/qfc-policy/src/rate_limit.rs). Rules on one scope share a bucket that each of
 them sizes and refills its own way. For an evaluation that reads one clock value, the
 condition here is exact, for any number of rules on any scopes.
 */
module RateOrder {
  import opened Bytes
  import opened WalletTypes
  import opened RateLimit
  import opened RuleSetPolicy
  import opened PolicyLaws

  /** One reading of the clock serves the whole evaluation. */
  function At(now: int): Clock {
    (r: Rule) => now
  }

  // ------------------------------------------------------------ one bucket

  /** Rate-limit rules that pass validation. */
  predicate Limits(rs: seq<Rule>) {
    forall i :: 0 <= i < |rs| ==> rs[i].RateLimit? && rs[i].tokens > 0
  }

  /** One call on a bucket that may not exist yet. */
  function Taken(b: Option<Bucket>, r: Rule, now: int): (bool, Bucket)
    requires r.RateLimit?
  {
    var call := Call([], r.tokens, r.refillPerSecs, now);
    var x := Refilled(if b.Some? then b.value else Bucket(r.tokens as real, now), call);
    if x.tokens >= 1.0 then (true, x.(tokens := x.tokens - 1.0)) else (false, x)
  }

  /** The rules of one scope, tried in order on its bucket, all pass. */
  predicate Pass(b: Option<Bucket>, now: int, rs: seq<Rule>)
    requires Limits(rs)
    decreases |rs|
  {
    rs == [] || (Taken(b, rs[0], now).0 && Pass(Some(Taken(b, rs[0], now).1), now, rs[1..]))
  }

  /** A refilling rule caps the bucket, which must still serve it and all rules after it. */
  predicate CapsOk(rs: seq<Rule>)
    requires Limits(rs)
  {
    forall i :: 0 <= i < |rs| && rs[i].refillPerSecs > 0 ==> rs[i].tokens >= |rs| - i
  }

  lemma CapsTail(rs: seq<Rule>)
    requires Limits(rs) && rs != []
    ensures Limits(rs[1..])
    ensures CapsOk(rs) <==> (rs[0].refillPerSecs > 0 ==> rs[0].tokens >= |rs|) && CapsOk(rs[1..])
  {
    var tail := rs[1..];
    assert forall i :: 0 <= i < |tail| ==> tail[i] == rs[i + 1];
    assert forall i :: 1 <= i < |rs| ==> rs[i] == tail[i - 1];
  }

  lemma NothingGained(refill: nat)
    requires refill > 0
    ensures Worth(0, refill) == 0.0
  {
  }

  /** A bucket refilled up to now serves the list if and only if it holds enough and no cap cuts in. */
  lemma {:induction false} Settled(level: real, now: int, rs: seq<Rule>)
    requires Limits(rs)
    ensures Pass(Some(Bucket(level, now)), now, rs) <==> rs == [] || (level >= |rs| as real && CapsOk(rs))
    decreases |rs|
  {
    if rs != [] {
      var r := rs[0];
      CapsTail(rs);
      if r.refillPerSecs > 0 { NothingGained(r.refillPerSecs); }
      hide Worth, CapsOk;
      var x := Taken(Some(Bucket(level, now)), r, now).1;
      Settled(x.tokens, now, rs[1..]);
    }
  }

  /** A new bucket is sized by the first rule. */
  lemma NewBucket(now: int, rs: seq<Rule>)
    requires Limits(rs) && rs != []
    ensures Pass(None, now, rs) <==> rs[0].tokens >= |rs| && CapsOk(rs)
  {
    var r := rs[0];
    CapsTail(rs);
    if r.refillPerSecs > 0 { NothingGained(r.refillPerSecs); }
    hide Worth, CapsOk;
    Settled(Taken(None, r, now).1.tokens, now, rs[1..]);
  }

  /** An existing bucket is refilled once, by the first rule when that one refills. */
  lemma RefilledFirst(b: Bucket, now: int, rs: seq<Rule>)
    requires Limits(rs) && rs != [] && rs[0].refillPerSecs > 0
    ensures Pass(Some(b), now, rs)
            <==> b.tokens + Worth(Max(now - b.lastRefillUnixMs, 0), rs[0].refillPerSecs) >= |rs| as real && CapsOk(rs)
  {
    CapsTail(rs);
    hide Worth, CapsOk;
    Settled(Taken(Some(b), rs[0], now).1.tokens, now, rs[1..]);
  }

  lemma {:induction false} NeverRefilled(b: Bucket, now: int, rs: seq<Rule>)
    requires Limits(rs) && NoRefill(rs)
    ensures Pass(Some(b), now, rs) <==> rs == [] || b.tokens >= |rs| as real
    decreases |rs|
  {
    if rs != [] {
      CapsTail(rs);
      NeverRefilled(Taken(Some(b), rs[0], now).1, now, rs[1..]);
    }
  }

  /** Whatever the bucket, a list that passes has no cap in its way. */
  lemma {:induction false} PassNeedsCaps(b: Option<Bucket>, now: int, rs: seq<Rule>)
    requires Limits(rs) && Pass(b, now, rs)
    ensures CapsOk(rs)
    decreases |rs|
  {
    if rs != [] {
      CapsTail(rs);
      if b.None? {
        NewBucket(now, rs);
      } else if rs[0].refillPerSecs > 0 {
        RefilledFirst(b.value, now, rs);
      } else {
        PassNeedsCaps(Some(Taken(b, rs[0], now).1), now, rs[1..]);
      }
    }
  }

  // ------------------------------------------------------------ the condition on one scope

  predicate NoRefill(rs: seq<Rule>)
    requires Limits(rs)
  {
    forall i :: 0 <= i < |rs| ==> rs[i].refillPerSecs == 0
  }

  predicate SameRefill(rs: seq<Rule>)
    requires Limits(rs)
  {
    forall i, j :: 0 <= i < j < |rs| ==> rs[i].refillPerSecs == rs[j].refillPerSecs
  }

  predicate AllAtLeast(rs: seq<Rule>, n: nat)
    requires Limits(rs)
  {
    forall i :: 0 <= i < |rs| ==> rs[i].tokens >= n
  }

  predicate AllBelow(rs: seq<Rule>, n: nat)
    requires Limits(rs)
  {
    forall i :: 0 <= i < |rs| ==> rs[i].tokens < n
  }

  /** Every rule allows the whole list at one rate, or none refills and none allows the whole list. */
  predicate Harmonious(rs: seq<Rule>)
    requires Limits(rs)
  {
    (SameRefill(rs) && AllAtLeast(rs, |rs|)) || (NoRefill(rs) && AllBelow(rs, |rs|))
  }

  /** How many refilling rules cap the bucket below k. */
  function Short(rs: seq<Rule>, k: nat): nat
    requires Limits(rs)
  {
    if rs == [] then 0
    else
      CapsTail(rs);
      (if rs[0].refillPerSecs > 0 && rs[0].tokens < k then 1 else 0) + Short(rs[1..], k)
  }

  /** So many low caps that some cap cuts in whatever the order: the scope always refuses. */
  ghost predicate Stuck(rs: seq<Rule>)
    requires Limits(rs)
  {
    exists k: nat :: k >= 1 && Short(rs, k) >= k
  }

  lemma {:induction false} ShortBound(rs: seq<Rule>, k: nat)
    requires Limits(rs)
    ensures Short(rs, k) <= |rs|
  {
    if rs != [] {
      CapsTail(rs);
      ShortBound(rs[1..], k);
    }
  }

  lemma {:induction false} CapsBoundShort(rs: seq<Rule>, k: nat)
    requires Limits(rs) && CapsOk(rs) && k >= 1
    ensures Short(rs, k) <= k - 1
  {
    if |rs| < k {
      ShortBound(rs, k);
    } else {
      CapsTail(rs);
      CapsBoundShort(rs[1..], k);
    }
  }

  lemma {:induction false} ShortConcat(a: seq<Rule>, b: seq<Rule>, k: nat)
    requires Limits(a) && Limits(b)
    ensures Limits(a + b) && Short(a + b, k) == Short(a, k) + Short(b, k)
  {
    if a == [] {
      assert a + b == b;
    } else {
      CapsTail(a);
      ShortConcat(a[1..], b, k);
      assert (a + b)[1..] == a[1..] + b;
    }
  }

  lemma LimitsPermute(a: seq<Rule>, b: seq<Rule>)
    requires Limits(a) && multiset(a) == multiset(b)
    ensures Limits(b) && |a| == |b|
    ensures forall r :: r in a <==> r in b
  {
    forall r ensures r in a <==> r in b {
      assert r in a <==> r in multiset(a);
      assert r in b <==> r in multiset(b);
    }
    forall i | 0 <= i < |b| ensures b[i].RateLimit? && b[i].tokens > 0 {
      assert b[i] in a;
    }
    assert |multiset(a)| == |a| && |multiset(b)| == |b|;
  }

  /** Taking one occurrence of an element out of two permutations leaves two permutations. */
  lemma RemoveOne(a: seq<Rule>, b: seq<Rule>, j: nat)
    requires a != [] && j < |b| && b[j] == a[0] && multiset(a) == multiset(b)
    ensures multiset(a[1..]) == multiset(b[..j] + b[j + 1..])
  {
    assert a == [a[0]] + a[1..];
    assert b == b[..j] + ([b[j]] + b[j + 1..]);
    assert multiset(a) == multiset{a[0]} + multiset(a[1..]);
    assert multiset(b) == multiset(b[..j]) + (multiset{b[j]} + multiset(b[j + 1..]));
    assert multiset(a[1..]) == multiset(a) - multiset{a[0]};
  }

  lemma ShortWithout(b: seq<Rule>, j: nat, k: nat)
    requires Limits(b) && j < |b|
    ensures Limits(b[..j] + b[j + 1..])
    ensures Short(b, k) == Short(b[..j] + b[j + 1..], k) + if b[j].refillPerSecs > 0 && b[j].tokens < k then 1 else 0
  {
    var head, one, tail := b[..j], [b[j]], b[j + 1..];
    assert b == head + (one + tail);
    ShortConcat(head, tail, k);
    ShortConcat(one, tail, k);
    ShortConcat(head, one + tail, k);
    assert one[1..] == [];
    assert Short(one, k) == (if one[0].refillPerSecs > 0 && one[0].tokens < k then 1 else 0) + Short(one[1..], k);
  }

  lemma {:induction false} ShortPermutes(a: seq<Rule>, b: seq<Rule>, k: nat)
    requires Limits(a) && Limits(b) && multiset(a) == multiset(b)
    ensures Short(a, k) == Short(b, k)
  {
    LimitsPermute(a, b);
    if a != [] {
      assert a[0] in b;
      var j :| 0 <= j < |b| && b[j] == a[0];
      CapsTail(a);
      ShortWithout(b, j, k);
      RemoveOne(a, b, j);
      hide Limits;
      ShortPermutes(a[1..], b[..j] + b[j + 1..], k);
    }
  }

  lemma HarmoniousPermutes(a: seq<Rule>, b: seq<Rule>)
    requires Limits(a) && Limits(b) && multiset(a) == multiset(b)
    ensures |a| == |b|
    ensures NoRefill(a) ==> NoRefill(b)
    ensures SameRefill(a) ==> SameRefill(b) && (a != [] ==> a[0].refillPerSecs == b[0].refillPerSecs)
    ensures forall n: nat :: AllAtLeast(a, n) ==> AllAtLeast(b, n)
    ensures forall n: nat :: AllBelow(a, n) ==> AllBelow(b, n)
  {
    LimitsPermute(a, b);
    forall i | 0 <= i < |b| ensures exists j :: 0 <= j < |a| && a[j] == b[i] { assert b[i] in a; }
  }

  /** What a harmonious list asks of its bucket: the same in every order. */
  lemma HarmoniousPass(b: Option<Bucket>, now: int, rs: seq<Rule>)
    requires Limits(rs) && rs != [] && Harmonious(rs)
    ensures Pass(b, now, rs)
            <==> match b
                 case None => AllAtLeast(rs, |rs|)
                 case Some(x) =>
                   if NoRefill(rs) then x.tokens >= |rs| as real
                   else x.tokens + Worth(Max(now - x.lastRefillUnixMs, 0), rs[0].refillPerSecs) >= |rs| as real
  {
    hide Worth, Taken;
    if NoRefill(rs) {
      assert CapsOk(rs);
    } else {
      assert SameRefill(rs) && AllAtLeast(rs, |rs|);
      assert rs[0].refillPerSecs > 0;
      assert CapsOk(rs);
    }
    if b.None? {
      NewBucket(now, rs);
    } else if NoRefill(rs) {
      NeverRefilled(b.value, now, rs);
    } else {
      RefilledFirst(b.value, now, rs);
    }
  }

  lemma HarmoniousBlind(b: Option<Bucket>, now: int, x: seq<Rule>, y: seq<Rule>)
    requires Limits(x) && Limits(y) && multiset(x) == multiset(y) && Harmonious(x)
    ensures Pass(b, now, x) <==> Pass(b, now, y)
  {
    hide Worth, Taken, SameRefill, NoRefill, AllAtLeast, AllBelow, Limits;
    HarmoniousPermutes(x, y);
    HarmoniousPermutes(y, x);
    if x != [] {
      hide Pass;
      HarmoniousPass(b, now, x);
      HarmoniousPass(b, now, y);
    }
  }

  lemma StuckNeverPasses(b: Option<Bucket>, now: int, x: seq<Rule>, y: seq<Rule>)
    requires Limits(x) && Limits(y) && multiset(x) == multiset(y) && Stuck(x)
    ensures !Pass(b, now, y)
  {
    hide Pass;
    var k: nat :| k >= 1 && Short(x, k) >= k;
    ShortPermutes(x, y, k);
    if Pass(b, now, y) {
      PassNeedsCaps(b, now, y);
      CapsBoundShort(y, k);
    }
  }

  // ------------------------------------------------------------ an order that can pass

  lemma {:induction false} AllShort(rs: seq<Rule>, k: nat)
    requires Limits(rs) && forall i :: 0 <= i < |rs| ==> rs[i].refillPerSecs > 0 && rs[i].tokens < k
    ensures Short(rs, k) == |rs|
  {
    if rs != [] {
      CapsTail(rs);
      AllShort(rs[1..], k);
    }
  }

  ghost predicate Refilling(rs: seq<Rule>)
    requires Limits(rs)
  {
    forall i :: 0 <= i < |rs| ==> rs[i].refillPerSecs > 0
  }

  /** Refilling rules that are not stuck: the list has a rule that allows all of it. */
  lemma SomeAllowsAll(rs: seq<Rule>) returns (i: nat)
    requires Limits(rs) && rs != [] && Refilling(rs) && !Stuck(rs)
    ensures i < |rs| && rs[i].tokens >= |rs|
  {
    if forall j :: 0 <= j < |rs| ==> rs[j].tokens < |rs| {
      AllShort(rs, |rs|);
      assert false;
    }
    i :| i < |rs| && rs[i].tokens >= |rs|;
  }

  lemma StuckWithout(rs: seq<Rule>, i: nat)
    requires Limits(rs) && i < |rs| && Limits(rs[..i] + rs[i + 1..]) && Stuck(rs[..i] + rs[i + 1..])
    ensures Stuck(rs)
  {
    var k: nat :| k >= 1 && Short(rs[..i] + rs[i + 1..], k) >= k;
    ShortWithout(rs, i, k);
  }

  lemma RefillingWithout(rs: seq<Rule>, i: nat)
    requires Limits(rs) && Refilling(rs) && i < |rs|
    ensures Limits(rs[..i] + rs[i + 1..]) && Refilling(rs[..i] + rs[i + 1..])
  {
  }

  lemma FirstAllowsAll(rs: seq<Rule>, i: nat, tail: seq<Rule>)
    requires Limits(rs) && i < |rs| && rs[i].tokens >= |rs| && rs[i].refillPerSecs > 0
    requires multiset(tail) == multiset(rs[..i] + rs[i + 1..]) && Limits(tail) && Refilling(tail) && CapsOk(tail)
    ensures var q := [rs[i]] + tail;
            multiset(q) == multiset(rs) && Limits(q) && Refilling(q) && CapsOk(q)
  {
    var rest, q := rs[..i] + rs[i + 1..], [rs[i]] + tail;
    assert rs == rs[..i] + ([rs[i]] + rs[i + 1..]);
    assert multiset(rs) == multiset(rs[..i]) + (multiset{rs[i]} + multiset(rs[i + 1..]));
    assert |multiset(tail)| == |tail| == |multiset(rest)| == |rest|;
    assert q[1..] == tail;
    CapsTail(q);
  }

  /** Refilling rules that are not stuck can be put in an order no cap cuts into. */
  lemma {:induction false} Arranged(rs: seq<Rule>) returns (q: seq<Rule>)
    requires Limits(rs) && Refilling(rs) && !Stuck(rs)
    ensures multiset(q) == multiset(rs) && Limits(q) && Refilling(q) && CapsOk(q)
    decreases |rs|
  {
    if rs == [] {
      q := [];
    } else {
      var i := SomeAllowsAll(rs);
      assert rs[i].refillPerSecs > 0;
      var rest := rs[..i] + rs[i + 1..];
      RefillingWithout(rs, i);
      hide Stuck, Refilling;
      if Stuck(rest) { StuckWithout(rs, i); assert false; }
      var tail := Arranged(rest);
      q := [rs[i]] + tail;
      FirstAllowsAll(rs, i, tail);
    }
  }

  /** The rules that do not refill, and those that do. */
  function Part(rs: seq<Rule>, refilling: bool): (p: seq<Rule>)
    requires Limits(rs)
  {
    if rs == [] then []
    else
      CapsTail(rs);
      (if (rs[0].refillPerSecs > 0) == refilling then [rs[0]] else []) + Part(rs[1..], refilling)
  }

  lemma {:induction false} PartKind(rs: seq<Rule>, refilling: bool)
    requires Limits(rs)
    ensures var p := Part(rs, refilling);
            Limits(p) && forall i :: 0 <= i < |p| ==> (p[i].refillPerSecs > 0) == refilling
  {
    if rs != [] {
      PartUnfold(rs, refilling);
      hide Part;
      PartKind(rs[1..], refilling);
    }
  }

  function CountOf(xs: seq<Rule>, r: Rule): nat {
    multiset(xs)[r]
  }

  lemma ConsCount(x: Rule, xs: seq<Rule>, r: Rule)
    ensures CountOf([x] + xs, r) == CountOf(xs, r) + if x == r then 1 else 0
  {
    assert multiset([x] + xs) == multiset{x} + multiset(xs);
  }

  lemma CountNone(r: Rule)
    ensures CountOf([], r) == 0
  {
  }

  lemma {:induction false} PartCounts(rs: seq<Rule>, r: Rule)
    requires Limits(rs)
    ensures CountOf(rs, r) == CountOf(Part(rs, false), r) + CountOf(Part(rs, true), r)
  {
    hide CountOf;
    CountNone(r);
    if rs != [] {
      hide Part, Limits;
      PartUnfold(rs, true);
      PartUnfold(rs, false);
      PartCounts(rs[1..], r);
      ConsCount(rs[0], rs[1..], r);
      ConsCount(rs[0], Part(rs[1..], rs[0].refillPerSecs > 0), r);
      assert rs == [rs[0]] + rs[1..];
    }
  }

  lemma Parts(rs: seq<Rule>)
    requires Limits(rs)
    ensures multiset(rs) == multiset(Part(rs, false)) + multiset(Part(rs, true))
  {
    hide Part;
    forall r ensures multiset(rs)[r] == multiset(Part(rs, false))[r] + multiset(Part(rs, true))[r] {
      PartCounts(rs, r);
    }
  }

  lemma PartUnfold(rs: seq<Rule>, refilling: bool)
    requires Limits(rs) && rs != []
    ensures Limits(rs[1..])
    ensures (rs[0].refillPerSecs > 0) == refilling ==> Part(rs, refilling) == [rs[0]] + Part(rs[1..], refilling)
    ensures (rs[0].refillPerSecs > 0) != refilling ==> Part(rs, refilling) == Part(rs[1..], refilling)
  {
    CapsTail(rs);
    assert [] + Part(rs[1..], refilling) == Part(rs[1..], refilling);
  }

  lemma {:induction false} ShortPart(rs: seq<Rule>, k: nat)
    requires Limits(rs)
    ensures Limits(Part(rs, true)) && Short(Part(rs, true), k) == Short(rs, k)
  {
    PartKind(rs, true);
    if rs != [] {
      PartUnfold(rs, true);
      hide Part;
      ShortPart(rs[1..], k);
      if rs[0].refillPerSecs > 0 {
        assert Part(rs, true)[1..] == Part(rs[1..], true);
      }
    }
  }

  /** A scope that is not stuck: first the rules that do not refill, then the others in a good order. */
  lemma GoodOrder(rs: seq<Rule>) returns (g: seq<Rule>, z: nat)
    requires Limits(rs) && !Stuck(rs)
    ensures multiset(g) == multiset(rs) && Limits(g) && CapsOk(g) && z <= |g|
    ensures forall i :: 0 <= i < |g| ==> (g[i].refillPerSecs > 0 <==> i >= z)
  {
    hide Part;
    var zero, some := Part(rs, false), Part(rs, true);
    Parts(rs);
    PartKind(rs, false);
    PartKind(rs, true);
    if Stuck(some) { StuckPart(rs); assert false; }
    var q := Arranged(some);
    g, z := zero + q, |zero|;
    Behind(zero, q);
  }

  lemma StuckPart(rs: seq<Rule>)
    requires Limits(rs) && Limits(Part(rs, true)) && Stuck(Part(rs, true))
    ensures Stuck(rs)
  {
    hide Part;
    var k: nat :| k >= 1 && Short(Part(rs, true), k) >= k;
    ShortPart(rs, k);
  }

  /** Rules that do not refill can stand in front without letting a cap cut in. */
  lemma Behind(zero: seq<Rule>, q: seq<Rule>)
    requires Limits(zero) && NoRefill(zero) && Limits(q) && Refilling(q) && CapsOk(q)
    ensures Limits(zero + q) && CapsOk(zero + q)
    ensures forall i :: 0 <= i < |zero + q| ==> ((zero + q)[i].refillPerSecs > 0 <==> i >= |zero|)
  {
  }

  // ------------------------------------------------------------ two orders that differ

  /** A list with some rule in front, and what is known of it. */
  lemma Fronted(rs: seq<Rule>, i: nat) returns (x: seq<Rule>)
    requires Limits(rs) && i < |rs|
    ensures multiset(x) == multiset(rs) && Limits(x) && |x| == |rs| && x[0] == rs[i]
    ensures NoRefill(rs) ==> NoRefill(x)
    ensures AllAtLeast(rs, |rs|) ==> CapsOk(x)
  {
    x := Promoted(rs, i);
    LimitsPermute(rs, x);
    HarmoniousPermutes(rs, x);
  }

  /** Time worth n tokens at a rate is worth fewer at a slower one. */
  lemma SlowerEarnsLess(n: nat, fast: nat, slow: nat)
    requires n > 0 && 0 < fast < slow
    ensures Worth(1000 * n * fast, fast) == n as real && Worth(1000 * n * fast, slow) < n as real
  {
    var t, p, q := (1000 * n * fast) as real, (1000 * fast) as real, (1000 * slow) as real;
    assert 1000 * n * fast == n * (1000 * fast);
    assert t == n as real * p && p < q;
    assert n as real * p < n as real * q;
    assert t / q < n as real;
  }

  lemma DifferUnrefilled(rs: seq<Rule>) returns (x: seq<Rule>, y: seq<Rule>)
    requires Limits(rs) && NoRefill(rs) && !Harmonious(rs)
    ensures multiset(x) == multiset(rs) == multiset(y) && Limits(x) && Limits(y)
    ensures Pass(None, 0, x) && !Pass(None, 0, y)
  {
    hide Pass;
    var n := |rs|;
    var i :| 0 <= i < n && rs[i].tokens >= n;
    var j :| 0 <= j < n && rs[j].tokens < n;
    x := Fronted(rs, i);
    y := Fronted(rs, j);
    NewBucket(0, x);
    NewBucket(0, y);
  }

  lemma DifferRates(rs: seq<Rule>, i: nat, j: nat) returns (x: seq<Rule>, y: seq<Rule>, now: int)
    requires Limits(rs) && AllAtLeast(rs, |rs|) && i < |rs| && j < |rs|
    requires 0 < rs[i].refillPerSecs < rs[j].refillPerSecs
    ensures multiset(x) == multiset(rs) == multiset(y) && Limits(x) && Limits(y)
    ensures Pass(Some(Bucket(0.0, 0)), now, x) && !Pass(Some(Bucket(0.0, 0)), now, y)
  {
    hide Pass, Worth, AllAtLeast;
    now := 1000 * |rs| * rs[i].refillPerSecs;
    x := Fronted(rs, i);
    y := Fronted(rs, j);
    SlowerEarnsLess(|rs|, rs[i].refillPerSecs, rs[j].refillPerSecs);
    RefilledFirst(Bucket(0.0, 0), now, x);
    RefilledFirst(Bucket(0.0, 0), now, y);
  }

  lemma DifferRefilled(rs: seq<Rule>, g: seq<Rule>) returns (x: seq<Rule>, y: seq<Rule>, b: Option<Bucket>, now: int)
    requires Limits(rs) && rs != [] && Refilling(rs) && !Harmonious(rs)
    requires multiset(g) == multiset(rs) && Limits(g) && Refilling(g) && CapsOk(g)
    ensures multiset(x) == multiset(rs) == multiset(y) && Limits(x) && Limits(y)
    ensures Pass(b, now, x) && !Pass(b, now, y)
  {
    hide Pass, Worth;
    LimitsPermute(rs, g);
    if AllAtLeast(rs, |rs|) {
      var i, j :| 0 <= i < j < |rs| && rs[i].refillPerSecs != rs[j].refillPerSecs;
      b := Some(Bucket(0.0, 0));
      if rs[i].refillPerSecs < rs[j].refillPerSecs {
        x, y, now := DifferRates(rs, i, j);
      } else {
        x, y, now := DifferRates(rs, j, i);
      }
    } else {
      var j :| 0 <= j < |rs| && rs[j].tokens < |rs|;
      x, b, now := g, None, 0;
      y := Fronted(rs, j);
      NewBucket(0, x);
      NewBucket(0, y);
    }
  }

  lemma ZeroFirstNeedsLevel(b: Bucket, now: int, rs: seq<Rule>)
    requires Limits(rs) && rs != [] && rs[0].refillPerSecs == 0 && b.tokens < 1.0
    ensures !Pass(Some(b), now, rs)
  {
  }

  lemma FullTime(n: nat, refill: nat)
    requires refill > 0
    ensures Worth(1000 * n * refill, refill) == n as real
  {
    assert 1000 * n * refill == n * (1000 * refill);
    assert (n * (1000 * refill)) as real == n as real * (1000 * refill) as real;
  }

  lemma DifferMixed(rs: seq<Rule>, g: seq<Rule>, i: nat)
    returns (x: seq<Rule>, y: seq<Rule>, b: Option<Bucket>, now: int)
    requires Limits(rs) && i < |rs| && rs[i].refillPerSecs > 0
    requires multiset(g) == multiset(rs) && Limits(g) && CapsOk(g) && g != [] && g[0].refillPerSecs == 0
    ensures multiset(x) == multiset(rs) == multiset(y) && Limits(x) && Limits(y)
    ensures Pass(b, now, x) && !Pass(b, now, y)
  {
    hide Pass, Worth;
    LimitsPermute(rs, g);
    var o := Fronted(rs, i);
    if CapsOk(o) {
      x, y, b, now := o, g, Some(Bucket(0.0, 0)), 1000 * |rs| * rs[i].refillPerSecs;
      FullTime(|rs|, rs[i].refillPerSecs);
      RefilledFirst(b.value, now, o);
      ZeroFirstNeedsLevel(b.value, now, g);
    } else {
      x, y, b, now := g, o, Some(Bucket(|rs| as real, 0)), 0;
      Settled(|rs| as real, 0, g);
      if Pass(b, now, o) { PassNeedsCaps(b, now, o); assert false; }
    }
  }

  /** A scope that is neither stuck nor harmonious has two orders that some bucket tells apart. */
  lemma Differ(rs: seq<Rule>) returns (x: seq<Rule>, y: seq<Rule>, b: Option<Bucket>, now: int)
    requires Limits(rs) && !Stuck(rs) && !Harmonious(rs)
    ensures multiset(x) == multiset(rs) == multiset(y) && Limits(x) && Limits(y)
    ensures Pass(b, now, x) && !Pass(b, now, y)
  {
    hide Pass, Stuck;
    if NoRefill(rs) {
      b, now := None, 0;
      x, y := DifferUnrefilled(rs);
    } else {
      var i :| 0 <= i < |rs| && rs[i].refillPerSecs != 0;
      var g, z := GoodOrder(rs);
      LimitsPermute(rs, g);
      if z == 0 {
        forall j | 0 <= j < |rs| ensures rs[j].refillPerSecs > 0 {
          assert rs[j] in g;
        }
        x, y, b, now := DifferRefilled(rs, g);
      } else {
        x, y, b, now := DifferMixed(rs, g, i);
      }
    }
  }

  // ------------------------------------------------------------ the gate, scope by scope

  /** The rate-limit rules of a scope, in list order. */
  function Sub(rules: seq<Rule>, s: Scope): (rs: seq<Rule>)
    ensures forall i :: 0 <= i < |rs| ==> rs[i].RateLimit? && rs[i].scope == s && rs[i] in rules
  {
    if rules == [] then []
    else (if rules[0].RateLimit? && rules[0].scope == s then [rules[0]] else []) + Sub(rules[1..], s)
  }

  function Unlimited(rules: seq<Rule>): (rs: seq<Rule>)
    ensures forall i :: 0 <= i < |rs| ==> !rs[i].RateLimit?
  {
    if rules == [] then [] else (if rules[0].RateLimit? then [] else [rules[0]]) + Unlimited(rules[1..])
  }

  /** Every rate-limit rule grants something, as validation demands. */
  predicate Positive(rules: seq<Rule>) {
    forall r :: r in rules && r.RateLimit? ==> r.tokens > 0
  }

  lemma SubLimits(rules: seq<Rule>, s: Scope)
    requires Positive(rules)
    ensures Limits(Sub(rules, s))
  {
    hide Sub;
  }

  function BucketOf(m: Buckets, key: Bytes): Option<Bucket> {
    if key in m then Some(m[key]) else None
  }

  ghost predicate ScopePasses(env: Env, request: SigningRequest, now: int, rules: seq<Rule>, m: Buckets, s: Scope)
    requires Positive(rules)
  {
    SubLimits(rules, s);
    Pass(BucketOf(m, RateLimitKey(env, s, request)), now, Sub(rules, s))
  }

  lemma AcquireIsTaken(m: Buckets, key: Bytes, r: Rule, now: int)
    requires r.RateLimit? && r.tokens > 0
    ensures var (ok, x) := Taken(BucketOf(m, key), r, now);
            Acquire(m, Call(key, r.tokens, r.refillPerSecs, now)) == (ok, m[key := x])
  {
  }

  lemma SubUnfold(rules: seq<Rule>, s: Scope)
    requires rules != []
    ensures rules[0].RateLimit? && rules[0].scope == s ==> Sub(rules, s) == [rules[0]] + Sub(rules[1..], s)
    ensures !(rules[0].RateLimit? && rules[0].scope == s) ==> Sub(rules, s) == Sub(rules[1..], s)
  {
    assert [] + Sub(rules[1..], s) == Sub(rules[1..], s);
  }

  /** The first rule's call is its scope's first step and touches no other scope. */
  lemma FirstStep(env: Env, request: SigningRequest, now: int, rules: seq<Rule>, m: Buckets, s: Scope)
    requires Positive(rules) && rules != [] && rules[0].RateLimit?
    ensures Positive(rules[1..])
    ensures var (ok, next) := Acquire(m, CallFor(env, request, At(now), rules[0]));
            ScopePasses(env, request, now, rules, m, s)
            <==> (s == rules[0].scope ==> ok) && ScopePasses(env, request, now, rules[1..], next, s)
  {
    hide Taken, RateLimitKey, Sub;
    var r, key := rules[0], RateLimitKey(env, rules[0].scope, request);
    assert r in rules && forall q :: q in rules[1..] ==> q in rules;
    AcquireIsTaken(m, key, r, now);
    SubUnfold(rules, s);
    SubLimits(rules, s);
    SubLimits(rules[1..], s);
    if s == r.scope {
      assert Sub(rules, s)[1..] == Sub(rules[1..], s);
    } else {
      assert Sub(rules, s) == Sub(rules[1..], s);
      if RateLimitKey(env, s, request) == key { ScopesApart(env, s, r.scope, request, request); }
    }
  }

  ghost predicate AllPass(env: Env, request: SigningRequest, now: int, rules: seq<Rule>, m: Buckets)
    requires Positive(rules)
  {
    forall s :: ScopePasses(env, request, now, rules, m, s)
  }

  /** The limiter gate passes if and only if every scope passes on its own bucket. */
  lemma {:induction false} ScanByScope(env: Env, request: SigningRequest, now: int, rules: seq<Rule>, m: Buckets)
    requires Positive(rules)
    ensures RateScan(env, request, At(now), rules, m).0 <==> AllPass(env, request, now, rules, m)
    decreases |rules|
  {
    hide Acquire, ScopePasses, RateLimitKey;
    if rules == [] {
      forall s ensures ScopePasses(env, request, now, rules, m, s) { EmptyPasses(env, request, now, m, s); }
    } else {
      assert forall q :: q in rules[1..] ==> q in rules;
      if rules[0].RateLimit? {
        var (ok, next) := Acquire(m, CallFor(env, request, At(now), rules[0]));
        forall s ensures ScopePasses(env, request, now, rules, m, s)
                         <==> (s == rules[0].scope ==> ok) && ScopePasses(env, request, now, rules[1..], next, s) {
          FirstStep(env, request, now, rules, m, s);
        }
        if ok {
          ScanByScope(env, request, now, rules[1..], next);
        } else {
          assert !ScopePasses(env, request, now, rules, m, rules[0].scope);
        }
      } else {
        forall s ensures ScopePasses(env, request, now, rules, m, s)
            <==> ScopePasses(env, request, now, rules[1..], m, s) {
          SkipStep(env, request, now, rules, m, s);
        }
        ScanByScope(env, request, now, rules[1..], m);
      }
    }
  }

  lemma EmptyPasses(env: Env, request: SigningRequest, now: int, m: Buckets, s: Scope)
    ensures ScopePasses(env, request, now, [], m, s)
  {
  }

  lemma SkipStep(env: Env, request: SigningRequest, now: int, rules: seq<Rule>, m: Buckets, s: Scope)
    requires Positive(rules) && rules != [] && !rules[0].RateLimit?
    ensures Positive(rules[1..])
    ensures ScopePasses(env, request, now, rules, m, s) <==> ScopePasses(env, request, now, rules[1..], m, s)
  {
    hide Pass, RateLimitKey;
    assert forall q :: q in rules[1..] ==> q in rules;
    SubUnfold(rules, s);
    assert Sub(rules, s) == Sub(rules[1..], s);
  }

  // ------------------------------------------------------------ permutations of the whole list

  lemma {:induction false} SubCounts(rules: seq<Rule>, s: Scope, r: Rule)
    ensures CountOf(Sub(rules, s), r) == if r.RateLimit? && r.scope == s then CountOf(rules, r) else 0
  {
    hide CountOf;
    CountNone(r);
    if rules != [] {
      hide Sub;
      SubUnfold(rules, s);
      SubCounts(rules[1..], s, r);
      ConsCount(rules[0], rules[1..], r);
      ConsCount(rules[0], Sub(rules[1..], s), r);
      assert rules == [rules[0]] + rules[1..];
    }
  }

  lemma SubPermutes(a: seq<Rule>, b: seq<Rule>, s: Scope)
    requires multiset(a) == multiset(b)
    ensures multiset(Sub(a, s)) == multiset(Sub(b, s))
  {
    hide Sub;
    forall r ensures multiset(Sub(a, s))[r] == multiset(Sub(b, s))[r] {
      SubCounts(a, s, r);
      SubCounts(b, s, r);
    }
  }

  lemma PositivePermutes(a: seq<Rule>, b: seq<Rule>)
    requires multiset(a) == multiset(b) && Positive(a)
    ensures Positive(b)
  {
    forall r | r in b && r.RateLimit? ensures r.tokens > 0 {
      assert r in multiset(b);
      assert r in a;
    }
  }

  ghost predicate StuckAt(rules: seq<Rule>, s: Scope)
    requires Positive(rules)
  {
    SubLimits(rules, s);
    Stuck(Sub(rules, s))
  }

  predicate HarmoniousAt(rules: seq<Rule>, s: Scope)
    requires Positive(rules)
  {
    SubLimits(rules, s);
    Harmonious(Sub(rules, s))
  }

  /**
   The condition: some scope refuses whatever the order, or on every scope the rules
   agree. It is read off the rule list alone.
   */
  ghost predicate OrderBlind(rules: seq<Rule>)
    requires Positive(rules)
  {
    (exists s :: StuckAt(rules, s)) || (forall s :: HarmoniousAt(rules, s))
  }

  lemma ScopeBlind(env: Env, request: SigningRequest, now: int, a: seq<Rule>, b: seq<Rule>, m: Buckets, s: Scope)
    requires multiset(a) == multiset(b) && Positive(a) && Positive(b)
    ensures HarmoniousAt(a, s)
            ==> (ScopePasses(env, request, now, a, m, s) <==> ScopePasses(env, request, now, b, m, s))
    ensures StuckAt(a, s) ==> !ScopePasses(env, request, now, b, m, s)
  {
    hide Pass, Stuck, Harmonious, Sub;
    SubLimits(a, s);
    SubLimits(b, s);
    SubPermutes(a, b, s);
    var x := BucketOf(m, RateLimitKey(env, s, request));
    if HarmoniousAt(a, s) { HarmoniousBlind(x, now, Sub(a, s), Sub(b, s)); }
    if StuckAt(a, s) { StuckNeverPasses(x, now, Sub(a, s), Sub(b, s)); }
  }

  lemma BlindSuffices(env: Env, request: SigningRequest, now: int, a: seq<Rule>, b: seq<Rule>, m: Buckets)
    requires multiset(a) == multiset(b) && Positive(a) && OrderBlind(a)
    ensures RateScan(env, request, At(now), a, m).0 <==> RateScan(env, request, At(now), b, m).0
  {
    hide ScopePasses, StuckAt, HarmoniousAt, RateScan;
    PositivePermutes(a, b);
    ScanByScope(env, request, now, a, m);
    ScanByScope(env, request, now, b, m);
    forall s ensures HarmoniousAt(a, s)
        ==> (ScopePasses(env, request, now, a, m, s) <==> ScopePasses(env, request, now, b, m, s))
             ensures StuckAt(a, s)
                     ==> !ScopePasses(env, request, now, a, m, s) && !ScopePasses(env, request, now, b, m, s) {
      ScopeBlind(env, request, now, a, b, m, s);
      ScopeBlind(env, request, now, a, a, m, s);
    }
  }

  // ------------------------------------------------------------ building two lists that differ

  /** The other rules, then the rate-limit rules scope by scope in given orders. */
  function Assembled(others: seq<Rule>, o: Scope -> seq<Rule>): seq<Rule> {
    others + (o(PerWallet) + (o(PerRequester) + o(PerWalletRequester)))
  }

  lemma {:induction false} SubConcat(a: seq<Rule>, b: seq<Rule>, s: Scope)
    ensures Sub(a + b, s) == Sub(a, s) + Sub(b, s)
  {
    if a == [] {
      assert a + b == b && [] + Sub(b, s) == Sub(b, s);
    } else {
      hide Sub;
      assert (a + b)[1..] == a[1..] + b && (a + b)[0] == a[0];
      SubUnfold(a, s);
      SubUnfold(a + b, s);
      SubConcat(a[1..], b, s);
      Associates([a[0]], Sub(a[1..], s), Sub(b, s));
    }
  }

  lemma Associates(a: seq<Rule>, b: seq<Rule>, c: seq<Rule>)
    ensures (a + b) + c == a + (b + c)
  {
  }

  /** All rules of a list are rate-limit rules of one scope. */
  ghost predicate OfScope(rs: seq<Rule>, s: Scope) {
    forall i :: 0 <= i < |rs| ==> rs[i].RateLimit? && rs[i].scope == s
  }

  lemma {:induction false} SubOfScope(rs: seq<Rule>, t: Scope, s: Scope)
    requires OfScope(rs, t)
    ensures Sub(rs, s) == if s == t then rs else []
  {
    if rs != [] {
      hide Sub;
      SubUnfold(rs, s);
      SubOfScope(rs[1..], t, s);
      assert rs == [rs[0]] + rs[1..];
    }
  }

  lemma {:induction false} SubOfOthers(rs: seq<Rule>, s: Scope)
    requires forall i :: 0 <= i < |rs| ==> !rs[i].RateLimit?
    ensures Sub(rs, s) == []
  {
    if rs != [] {
      SubUnfold(rs, s);
      SubOfOthers(rs[1..], s);
    }
  }

  lemma SubAssembled(others: seq<Rule>, o: Scope -> seq<Rule>, s: Scope)
    requires forall i :: 0 <= i < |others| ==> !others[i].RateLimit?
    requires forall t :: OfScope(o(t), t)
    ensures Sub(Assembled(others, o), s) == o(s)
  {
    hide Sub, OfScope;
    var w, r, b := o(PerWallet), o(PerRequester), o(PerWalletRequester);
    SubConcat(others, w + (r + b), s);
    SubConcat(w, r + b, s);
    SubConcat(r, b, s);
    SubOfOthers(others, s);
    SubOfScope(w, PerWallet, s);
    SubOfScope(r, PerRequester, s);
    SubOfScope(b, PerWalletRequester, s);
    assert [] + (w + ([] + [])) == w && [] + ([] + (r + [])) == r && [] + ([] + ([] + b)) == b;
  }

  lemma WholeList(rules: seq<Rule>, r: Rule)
    ensures multiset(rules)[r] == multiset(Unlimited(rules))[r] + multiset(Sub(rules, PerWallet))[r]
                                  + multiset(Sub(rules, PerRequester))[r] + multiset(Sub(rules, PerWalletRequester))[r]
  {
    hide Sub;
    SubCounts(rules, PerWallet, r);
    SubCounts(rules, PerRequester, r);
    SubCounts(rules, PerWalletRequester, r);
    UnlimitedCounts(rules, r);
  }

  lemma {:induction false} UnlimitedCounts(rules: seq<Rule>, r: Rule)
    ensures CountOf(Unlimited(rules), r) == if r.RateLimit? then 0 else CountOf(rules, r)
  {
    if rules != [] {
      var head, rest := rules[0], rules[1..];
      hide CountOf;
      UnlimitedCounts(rest, r);
      assert rules == [head] + rest;
      ConsCount(head, rest, r);
      if head.RateLimit? {
        assert Unlimited(rules) == Unlimited(rest);
      } else {
        assert Unlimited(rules) == [head] + Unlimited(rest);
        ConsCount(head, Unlimited(rest), r);
      }
    }
  }

  ghost predicate Reorders(rules: seq<Rule>, o: Scope -> seq<Rule>) {
    forall s :: multiset(o(s)) == multiset(Sub(rules, s))
  }

  lemma AssembledPermutes(rules: seq<Rule>, o: Scope -> seq<Rule>)
    requires Reorders(rules, o)
    ensures multiset(Assembled(Unlimited(rules), o)) == multiset(rules)
    ensures forall s :: OfScope(o(s), s)
  {
    hide Sub, Unlimited;
    var b := Assembled(Unlimited(rules), o);
    assert multiset(b) == multiset(Unlimited(rules))
        + (multiset(o(PerWallet)) + (multiset(o(PerRequester)) + multiset(o(PerWalletRequester))));
    forall r ensures multiset(b)[r] == multiset(rules)[r] {
      WholeList(rules, r);
    }
    forall s ensures OfScope(o(s), s) {
      forall i | 0 <= i < |o(s)| ensures o(s)[i].RateLimit? && o(s)[i].scope == s {
        assert o(s)[i] in multiset(o(s));
        assert o(s)[i] in Sub(rules, s);
      }
    }
  }

  /** A limiter with the given bucket, or none, for each scope of a request. */
  function Holding(env: Env, request: SigningRequest, f: Scope -> Option<Bucket>): Buckets {
    var m := Put(map[], RateLimitKey(env, PerWallet, request), f(PerWallet));
    var m := Put(m, RateLimitKey(env, PerRequester, request), f(PerRequester));
    Put(m, RateLimitKey(env, PerWalletRequester, request), f(PerWalletRequester))
  }

  function Put(m: Buckets, key: Bytes, b: Option<Bucket>): Buckets {
    if b.Some? then m[key := b.value] else m
  }

  lemma HoldingHolds(env: Env, request: SigningRequest, f: Scope -> Option<Bucket>, s: Scope)
    ensures BucketOf(Holding(env, request, f), RateLimitKey(env, s, request)) == f(s)
  {
    hide RateLimitKey;
    forall a: Scope, b: Scope | a != b ensures RateLimitKey(env, a, request) != RateLimitKey(env, b, request) {
      if RateLimitKey(env, a, request) == RateLimitKey(env, b, request) { ScopesApart(env, a, b, request, request); }
    }
  }

  /** Choices for each scope: an order, and a bucket it passes on. */
  lemma Choices(rules: seq<Rule>, now: int, s: Scope) returns (g: seq<Rule>, b: Bucket)
    requires Positive(rules) && !StuckAt(rules, s)
    ensures multiset(g) == multiset(Sub(rules, s)) && Limits(g) && Pass(Some(b), now, g)
  {
    hide Stuck, Sub, Pass;
    SubLimits(rules, s);
    var z;
    g, z := GoodOrder(Sub(rules, s));
    b := Bucket(|g| as real, now);
    Settled(|g| as real, now, g);
    if g == [] { NoneToPass(Some(b), now); }
  }

  lemma NoneToPass(b: Option<Bucket>, now: int)
    ensures Pass(b, now, [])
  {
  }

  lemma AssembledPasses(env: Env, request: SigningRequest, now: int, rules: seq<Rule>, o: Scope -> seq<Rule>,
                        f: Scope -> Option<Bucket>)
    requires Positive(rules) && Reorders(rules, o) && forall s :: Limits(o(s))
    ensures var b := Assembled(Unlimited(rules), o);
            && multiset(b) == multiset(rules)
            && (RateScan(env, request, At(now), b, Holding(env, request, f)).0 <==> forall s :: Pass(f(s), now, o(s)))
  {
    hide Pass, Sub, Unlimited, RateScan, Holding, RateLimitKey, Assembled, Limits;
    var b, m := Assembled(Unlimited(rules), o), Holding(env, request, f);
    AssembledPermutes(rules, o);
    PositivePermutes(rules, b);
    ScanByScope(env, request, now, b, m);
    forall s ensures ScopePasses(env, request, now, b, m, s) <==> Pass(f(s), now, o(s)) {
      HoldingHolds(env, request, f, s);
      SubAssembled(Unlimited(rules), o, s);
    }
  }

  /** The list is not order-blind: two permutations and a limiter state that tells them apart. */
  lemma BlindIsNeeded(env: Env, request: SigningRequest, rules: seq<Rule>)
    returns (a: seq<Rule>, b: seq<Rule>, m: Buckets, now: int)
    requires Positive(rules) && !OrderBlind(rules)
    ensures multiset(a) == multiset(rules) == multiset(b)
    ensures RateScan(env, request, At(now), a, m).0 && !RateScan(env, request, At(now), b, m).0
  {
    hide StuckAt, HarmoniousAt, Sub, Pass, RateScan, Assembled, Holding, Unlimited, Limits;
    var s0 :| !HarmoniousAt(rules, s0);
    var x, y, bucket;
    x, y, bucket, now := DifferAt(rules, s0);
    var w, bw := Choices(rules, now, PerWallet);
    var r, br := Choices(rules, now, PerRequester);
    var c, bc := Choices(rules, now, PerWalletRequester);
    var f: Scope -> Option<Bucket> := (s: Scope) =>
      if s == s0 then bucket else match s case PerWallet => Some(bw) case PerRequester => Some(br)
          case PerWalletRequester => Some(bc);
    var good: Scope -> seq<Rule> := (s: Scope) =>
      match s case PerWallet => w case PerRequester => r case PerWalletRequester => c;
    var p: Scope -> seq<Rule> := (s: Scope) => if s == s0 then x else good(s);
    var q: Scope -> seq<Rule> := (s: Scope) => if s == s0 then y else good(s);
    a, b, m := Assembled(Unlimited(rules), p), Assembled(Unlimited(rules), q), Holding(env, request, f);
    AssembledPasses(env, request, now, rules, p, f);
    AssembledPasses(env, request, now, rules, q, f);
    assert forall s :: Pass(f(s), now, p(s));
    assert !Pass(f(s0), now, q(s0));
  }

  lemma DifferAt(rules: seq<Rule>, s: Scope) returns (x: seq<Rule>, y: seq<Rule>, b: Option<Bucket>, now: int)
    requires Positive(rules) && !StuckAt(rules, s) && !HarmoniousAt(rules, s)
    ensures multiset(x) == multiset(Sub(rules, s)) == multiset(y) && Limits(x) && Limits(y)
    ensures Pass(b, now, x) && !Pass(b, now, y)
  {
    hide Sub, Stuck, Harmonious, Pass;
    SubLimits(rules, s);
    x, y, b, now := Differ(Sub(rules, s));
  }

  /** The limiter gate answers alike for every order, limiter state and time if and only if the list is order-blind. */
  lemma GateOrderExactly(env: Env, request: SigningRequest, rules: seq<Rule>)
    requires Positive(rules)
    ensures (forall b, m, now :: multiset(b) == multiset(rules) ==>
               (RateScan(env, request, At(now), rules, m).0 <==> RateScan(env, request, At(now), b, m).0))
            <==> OrderBlind(rules)
  {
    hide OrderBlind, RateScan;
    if OrderBlind(rules) {
      forall b, m, now | multiset(b) == multiset(rules)
        ensures RateScan(env, request, At(now), rules, m).0 <==> RateScan(env, request, At(now), b, m).0 {
        BlindSuffices(env, request, now, rules, b, m);
      }
    } else {
      var a, b, m, now := BlindIsNeeded(env, request, rules);
      assert RateScan(env, request, At(now), a, m).0 != RateScan(env, request, At(now), b, m).0;
    }
  }

  // ------------------------------------------------------------ decisions

  lemma ValidIsPositive(env: Env, rs: RuleSet)
    requires Validated(env, rs)
    ensures Positive(rs.rules)
  {
    forall r | r in rs.rules && r.RateLimit? ensures r.tokens > 0 {
      var i :| 0 <= i < |rs.rules| && rs.rules[i] == r;
      assert RuleOk(env, rs.rules[i]);
    }
  }

  /** Two rule sets decide alike: the same kind of decision, the same reason for a denial. */
  predicate DecideAlike(env: Env, request: SigningRequest, a: RuleSet, b: RuleSet, m: Buckets, now: int) {
    var x, y := Evaluated(env, request, a, At(now), m).0, Evaluated(env, request, b, At(now), m).0;
    x.Decided? && y.Decided? && Summarize(x.decision) == Summarize(y.decision)
  }

  lemma AlikeByGate(env: Env, request: SigningRequest, a: RuleSet, b: RuleSet, m: Buckets, now: int)
    requires Validated(env, a) && Permutation(a, b)
    ensures DecideAlike(env, request, a, b, m, now)
            <==> Front(env, request, a.rules).Some?
                 || (RateScan(env, request, At(now), a.rules, m).0 <==> RateScan(env, request, At(now), b.rules, m).0)
  {
    hide Evaluated, Declared, Front, RateScan, Validated, SameRules;
    PermutedValid(env, a, b);
    SamePermuted(a.rules, b.rules);
    EvaluateRefines(env, request, a, At(now), m);
    EvaluateRefines(env, request, b, At(now), m);
    SameRulesSameReading(env, request, a, b, true);
    SameRulesSameReading(env, request, a, b, false);
    FrontIsEarly(env, request, a);
  }

  /**
   The order law. For a validated set and a request, every permutation of the rules
   decides alike in every limiter state and at every time if and only if an earlier
   gate decides or the list is order-blind.
   */
  lemma DecisionOrderExactly(env: Env, request: SigningRequest, a: RuleSet)
    requires Validated(env, a)
    ensures Positive(a.rules)
    ensures (forall b, m, now :: Permutation(a, b) ==> DecideAlike(env, request, a, b, m, now))
            <==> Front(env, request, a.rules).Some? || OrderBlind(a.rules)
  {
    hide Validated, DecideAlike, RateScan, OrderBlind, Front;
    ValidIsPositive(env, a);
    if Front(env, request, a.rules).Some? || OrderBlind(a.rules) {
      forall b, m, now | Permutation(a, b) ensures DecideAlike(env, request, a, b, m, now) {
        AlikeByGate(env, request, a, b, m, now);
        if OrderBlind(a.rules) { BlindSuffices(env, request, now, a.rules, b.rules, m); }
      }
    } else {
      var x, y, m, now := BlindIsNeeded(env, request, a.rules);
      var b, c := a.(rules := x), a.(rules := y);
      assert Permutation(a, b) && Permutation(a, c);
      AlikeByGate(env, request, a, b, m, now);
      AlikeByGate(env, request, a, c, m, now);
    }
  }

  // ------------------------------------------------------------ two rules

  lemma SubPair(r: Rule, q: Rule, s: Scope)
    requires r.RateLimit? && q.RateLimit? && r.scope == q.scope
    ensures Sub([r, q], s) == if s == r.scope then [r, q] else []
  {
    assert OfScope([r, q], r.scope);
    SubOfScope([r, q], r.scope, s);
  }

  lemma ShortPair(r: Rule, q: Rule, k: nat)
    requires r.RateLimit? && q.RateLimit? && Limits([r, q])
    ensures Short([r, q], k) == (if r.refillPerSecs > 0 && r.tokens < k then 1 else 0)
                                + (if q.refillPerSecs > 0 && q.tokens < k then 1 else 0)
  {
    assert [r, q][1..] == [q] && [q][1..] == [];
    assert Short([q], k) == (if q.refillPerSecs > 0 && q.tokens < k then 1 else 0) + Short([], k);
  }

  lemma StuckPair(r: Rule, q: Rule)
    requires r.RateLimit? && q.RateLimit? && Limits([r, q])
    ensures Stuck([r, q]) <==> r.refillPerSecs > 0 && q.refillPerSecs > 0 && r.tokens == 1 && q.tokens == 1
  {
    assert [r, q][0] == r && [r, q][1] == q;
    hide Short;
    forall k: nat ensures Short([r, q], k) == (if r.refillPerSecs > 0 && r.tokens < k then 1 else 0)
                                              + (if q.refillPerSecs > 0 && q.tokens < k then 1 else 0) {
      ShortPair(r, q, k);
    }
    assert Short([r, q], 2) >= 2 ==> Stuck([r, q]);
  }

  /**
   Two rules on one scope: their order never matters if and only if both allow two
   tokens or neither does, at one rate; or both refill and allow a single token.
   */
  lemma PairOrderExactly(r: Rule, q: Rule)
    requires r.RateLimit? && q.RateLimit? && r.scope == q.scope && r.tokens > 0 && q.tokens > 0
    ensures Positive([r, q])
    ensures OrderBlind([r, q])
            <==> (r.tokens >= 2 <==> q.tokens >= 2)
                 && (r.refillPerSecs == q.refillPerSecs
                     || (r.tokens == 1 && q.tokens == 1 && r.refillPerSecs > 0 && q.refillPerSecs > 0))
  {
    var rules := [r, q];
    assert rules[0] == r && rules[1] == q;
    StuckPair(r, q);
    hide Stuck, Sub;
    forall s ensures StuckAt(rules, s) <==> s == r.scope && Stuck(rules)
             ensures HarmoniousAt(rules, s) <==> (s == r.scope ==> Harmonious(rules)) {
      SubPair(r, q, s);
      SubLimits(rules, s);
      NoneStuck();
    }
    assert StuckAt(rules, r.scope) <==> Stuck(rules);
    assert HarmoniousAt(rules, r.scope) <==> Harmonious(rules);
  }

  lemma NoneStuck()
    ensures !Stuck([]) && Harmonious([])
  {
  }
}
