/**
 What the rule evaluator (crates/qfc-policy/src/rule_set_policy.rs) guarantees:
 it never errs on a validated set, refines a declarative reading of the rule list,
 and only tightens when a restrictive rule is added. When rate-limit rules on one
 scope are copies of each other, the order of the list changes neither the kind of
 a decision nor the reason of a denial. It changes which quorum is asked for, unless
 all firing quorum rules ask for the same one.
 */
module PolicyLaws {
  import opened Bytes
  import opened WalletTypes
  import opened RateLimit
  import opened RuleSetPolicy

  // ------------------------------------------------------------ the declarative reading

  datatype Summary = Allowed | DeniedFor(reason: DenyReason) | NeedsQuorum

  function Summarize(d: Decision): Summary {
    match d
    case Allow(_) => Allowed
    case Deny(reason, _) => DeniedFor(reason)
    case Quorum(_, _, _, _) => NeedsQuorum
  }

  /** Some rule of the gate's kind denies the request. */
  ghost predicate Blocked(env: Env, request: SigningRequest, g: Gate, rules: seq<Rule>) {
    exists r :: r in rules && Check(env, request, g, r).Fail?
  }

  ghost predicate QuorumWanted(env: Env, request: SigningRequest, rules: seq<Rule>) {
    exists r :: r in rules && r.RequireQuorum? && Fires(env, request, r.trigger).Fail?
  }

  /** The first failing gate, in the fixed order, decides; `limited` says whether the limiter refused. */
  ghost function Declared(env: Env, request: SigningRequest, rs: RuleSet, limited: bool): Summary {
    var rules := rs.rules;
    if Blocked(env, request, ChainGate, rules) then DeniedFor(ChainDenied)
    else if Blocked(env, request, ContractGate, rules) then DeniedFor(Other("contract denied"))
    else if ChainListed(rules) && !ChainAllowed(request, rules) then DeniedFor(ChainNotAllowed)
    else if ContractListed(request, rules) && !ContractAllowed(env, request, rules) then
      DeniedFor(Other("contract not on allow list"))
    else if MethodListed(env, request, rules) && !MethodAllowed(env, request, rules)
        then DeniedFor(Other("method not allowed"))
    else if Blocked(env, request, CapGate, rules) then DeniedFor(Other("value cap exceeded"))
    else if Blocked(env, request, WindowGate, rules) then DeniedFor(Other("outside time window"))
    else if limited then DeniedFor(Other("rate limited"))
    else if Blocked(env, request, ShapeGate, rules) then DeniedFor(Other("vm-shape constraint"))
    else if QuorumWanted(env, request, rules) then NeedsQuorum
    else if rs.defaultAllow then Allowed
    else DeniedFor(Other("policy default"))
  }

  lemma ValidNeverBroken(env: Env, request: SigningRequest, g: Gate, r: Rule)
    requires RuleOk(env, r)
    ensures Check(env, request, g, r) != Broken
  {
  }

  lemma {:induction false} ScanIsBlocked(env: Env, request: SigningRequest, g: Gate, rules: seq<Rule>)
    requires forall i :: 0 <= i < |rules| ==> RuleOk(env, rules[i])
    ensures Scan(env, request, g, rules) != Broken
    ensures Scan(env, request, g, rules).Fail? <==> Blocked(env, request, g, rules)
  {
    hide Check, RuleOk;
    if rules != [] {
      ValidNeverBroken(env, request, g, rules[0]);
      ScanIsBlocked(env, request, g, rules[1..]);
      assert rules == [rules[0]] + rules[1..];
      if Check(env, request, g, rules[0]).Fail? { assert rules[0] in rules; }
    }
  }

  lemma {:induction false} QuorumScanIsWanted(env: Env, request: SigningRequest, rules: seq<Rule>)
    requires forall i :: 0 <= i < |rules| ==> RuleOk(env, rules[i])
    ensures QuorumScan(env, request, rules) != BadTrigger
    ensures QuorumScan(env, request, rules).FiredRule? <==> QuorumWanted(env, request, rules)
  {
    if rules != [] {
      QuorumScanIsWanted(env, request, rules[1..]);
      assert rules == [rules[0]] + rules[1..];
      assert RuleOk(env, rules[0]);
      hide RuleOk;
      if rules[0].RequireQuorum? && Fires(env, request, rules[0].trigger).Fail? { assert rules[0] in rules; }
    }
  }

  /**
   A validated policy never errs, and decides as the declarative reading says;
   when a gate before the limiter decides, the limiter is left as it was.
   */
  lemma EvaluateRefines(env: Env, request: SigningRequest, rs: RuleSet, clock: Clock, m: Buckets)
    requires Validated(env, rs)
    ensures var (outcome, after) := Evaluated(env, request, rs, clock, m);
            && outcome.Decided?
            && Summarize(outcome.decision) == Declared(env, request, rs, !RateScan(env, request, clock, rs.rules, m).0)
            && (Front(env, request, rs.rules).Some? ==> after == m)
  {
    hide Scan, QuorumScan, RateScan, Blocked, QuorumWanted, RuleOk;
    hide ChainListed, ChainAllowed, ContractListed, ContractAllowed, MethodListed, MethodAllowed;
    hide HitsAfter3, HitsAfter4, HitsAfter5;
    ScanIsBlocked(env, request, ChainGate, rs.rules);
    ScanIsBlocked(env, request, ContractGate, rs.rules);
    ScanIsBlocked(env, request, CapGate, rs.rules);
    ScanIsBlocked(env, request, WindowGate, rs.rules);
    ScanIsBlocked(env, request, ShapeGate, rs.rules);
    QuorumScanIsWanted(env, request, rs.rules);
  }

  // ------------------------------------------------------------ rule order does not matter

  predicate SameScope(r: Rule, q: Rule) {
    r.RateLimit? && q.RateLimit? && r.scope == q.scope
  }

  /** Rate-limit rules on one scope are copies of each other; in particular, one rule per scope. */
  ghost predicate AlikePerScope(rules: seq<Rule>) {
    forall i, j :: 0 <= i < j < |rules| && SameScope(rules[i], rules[j]) ==> rules[i] == rules[j]
  }

  lemma PairInMultiset<T>(xs: seq<T>, i: nat, j: nat)
    requires i < j < |xs|
    ensures multiset{xs[i], xs[j]} <= multiset(xs)
  {
    assert xs == xs[..j] + [xs[j]] + xs[j + 1..];
    assert xs[i] in xs[..j];
    assert xs[i] in multiset(xs[..j]);
  }

  lemma PairFromMultiset<T>(xs: seq<T>, x: T, y: T) returns (i: nat, j: nat)
    requires multiset{x, y} <= multiset(xs)
    ensures i < |xs| && j < |xs| && i != j && xs[i] == x && xs[j] == y
  {
    assert multiset(xs)[x] >= multiset{x, y}[x] >= 1;
    assert x in multiset(xs);
    i :| i < |xs| && xs[i] == x;
    var rest := xs[..i] + xs[i + 1..];
    assert xs == xs[..i] + [xs[i]] + xs[i + 1..];
    assert multiset(xs) == multiset(rest) + multiset{x};
    assert multiset(rest)[y] >= 1;
    assert y in multiset(rest);
    var k :| 0 <= k < |rest| && rest[k] == y;
    j := if k < i then k else k + 1;
  }

  lemma AlikePermutes(a: seq<Rule>, b: seq<Rule>)
    requires multiset(a) == multiset(b) && AlikePerScope(a)
    ensures AlikePerScope(b)
  {
    forall i, j | 0 <= i < j < |b| && b[i].RateLimit? && b[j].RateLimit? && b[i].scope == b[j].scope
      ensures b[i] == b[j]
    {
      PairInMultiset(b, i, j);
      var k, l := PairFromMultiset(a, b[i], b[j]);
    }
  }

  /** Whether one call succeeds depends on its own bucket only. */
  lemma AcquireLocal(m: Buckets, n: Buckets, call: Call)
    requires call.key in m <==> call.key in n
    requires call.key in m ==> m[call.key] == n[call.key]
    ensures Acquire(m, call).0 == Acquire(n, call).0
  {
  }

  ghost predicate SameAt(m: Buckets, n: Buckets, key: Bytes) {
    (key in m <==> key in n) && (key in m ==> m[key] == n[key])
  }

  /** The same call succeeds n times in a row. */
  predicate Repeated(m: Buckets, call: Call, n: nat)
    decreases n
  {
    n == 0 || (Acquire(m, call).0 && Repeated(Acquire(m, call).1, call, n - 1))
  }

  lemma AcquireElsewhere(m: Buckets, call: Call, key: Bytes)
    requires key != call.key
    ensures SameAt(m, Acquire(m, call).1, key)
  {
  }

  lemma AcquireSame(m: Buckets, n: Buckets, call: Call)
    requires SameAt(m, n, call.key)
    ensures SameAt(Acquire(m, call).1, Acquire(n, call).1, call.key)
  {
  }

  lemma {:induction false} RepeatedLocal(m: Buckets, n: Buckets, call: Call, times: nat)
    requires SameAt(m, n, call.key)
    ensures Repeated(m, call, times) <==> Repeated(n, call, times)
    decreases times
  {
    if times > 0 {
      AcquireLocal(m, n, call);
      AcquireSame(m, n, call);
      RepeatedLocal(Acquire(m, call).1, Acquire(n, call).1, call, times - 1);
    }
  }

  /** Every rate-limit rule's bucket grants as many tokens as the rule is listed. */
  ghost predicate AllGranted(env: Env, request: SigningRequest, clock: Clock, rules: seq<Rule>, m: Buckets) {
    forall r :: r in rules && r.RateLimit? ==> Granted(env, request, clock, rules, m, r)
  }

  ghost predicate Granted(env: Env, request: SigningRequest, clock: Clock, rules: seq<Rule>, m: Buckets, r: Rule)
    requires r.RateLimit?
  {
    Repeated(m, CallFor(env, request, clock, r), multiset(rules)[r])
  }

  /** The first rule's call leaves what the other rules ask as it was. */
  lemma GrantedRest(env: Env, request: SigningRequest, clock: Clock, rules: seq<Rule>, m: Buckets, s: Rule)
    requires rules != [] && rules[0].RateLimit? && AlikePerScope(rules) && s in rules && s.RateLimit?
    requires Acquire(m, CallFor(env, request, clock, rules[0])).0
    ensures var next := Acquire(m, CallFor(env, request, clock, rules[0])).1;
            Granted(env, request, clock, rules, m, s) <==> Granted(env, request, clock, rules[1..], next, s)
  {
    hide Acquire, RateLimitKey;
    var r := rules[0];
    var call := CallFor(env, request, clock, r);
    assert rules == [r] + rules[1..];
    assert multiset(rules) == multiset{r} + multiset(rules[1..]);
    if s != r {
      var k :| 0 <= k < |rules| && rules[k] == s;
      assert rules[0].scope != rules[k].scope;
      if RateLimitKey(env, s.scope, request) == call.key { ScopesApart(env, s.scope, r.scope, request, request); }
      AcquireElsewhere(m, call, RateLimitKey(env, s.scope, request));
      RepeatedLocal(m, Acquire(m, call).1, CallFor(env, request, clock, s), multiset(rules)[s]);
    }
  }

  lemma AlikeTail(rules: seq<Rule>)
    requires rules != [] && AlikePerScope(rules)
    ensures AlikePerScope(rules[1..])
  {
  }

  /** The limiter gate, rule by rule: it passes if and only if each bucket grants what its rules ask of it. */
  lemma {:induction false} RateScanDeclarative(env: Env, request: SigningRequest, clock: Clock, rules: seq<Rule>,
                                               m: Buckets)
    requires AlikePerScope(rules)
    ensures RateScan(env, request, clock, rules, m).0 <==> AllGranted(env, request, clock, rules, m)
    decreases |rules|
  {
    hide Acquire, RateLimitKey, Granted, AlikePerScope;
    if rules != [] {
      var r, rest := rules[0], rules[1..];
      assert rules == [r] + rest;
      AlikeTail(rules);
      if !r.RateLimit? {
        RateScanDeclarative(env, request, clock, rest, m);
        forall s | s in rest && s.RateLimit?
          ensures Granted(env, request, clock, rules, m, s) <==> Granted(env, request, clock, rest, m, s)
        {
          GrantedSkips(env, request, clock, r, rest, m, s);
        }
      } else {
        var call := CallFor(env, request, clock, r);
        var (ok, next) := Acquire(m, call);
        RateScanDeclarative(env, request, clock, rest, next);
        GrantedFirst(env, request, clock, rules, m);
        if ok {
          forall s | s in rest && s.RateLimit?
            ensures Granted(env, request, clock, rules, m, s) <==> Granted(env, request, clock, rest, next, s)
          {
            GrantedRest(env, request, clock, rules, m, s);
          }
        }
      }
    }
  }

  lemma GrantedSkips(env: Env, request: SigningRequest, clock: Clock, r: Rule, rest: seq<Rule>, m: Buckets, s: Rule)
    requires !r.RateLimit? && s.RateLimit?
    ensures Granted(env, request, clock, [r] + rest, m, s) <==> Granted(env, request, clock, rest, m, s)
  {
    hide Repeated;
    assert multiset([r] + rest) == multiset{r} + multiset(rest);
  }

  /** The first rule's own demand begins with its first call. */
  lemma GrantedFirst(env: Env, request: SigningRequest, clock: Clock, rules: seq<Rule>, m: Buckets)
    requires rules != [] && rules[0].RateLimit?
    ensures var (ok, next) := Acquire(m, CallFor(env, request, clock, rules[0]));
            && (Granted(env, request, clock, rules, m, rules[0]) ==> ok)
            && (ok && rules[0] !in rules[1..] ==> Granted(env, request, clock, rules, m, rules[0]))
  {
    hide Acquire, RateLimitKey;
    var r, rest := rules[0], rules[1..];
    assert rules == [r] + rest;
    assert multiset(rules) == multiset{r} + multiset(rest);
    assert r !in rest ==> multiset(rest)[r] == 0;
    var call := CallFor(env, request, clock, r);
    assert Repeated(Acquire(m, call).1, call, 0);
  }

  ghost predicate SameRules(a: seq<Rule>, b: seq<Rule>) {
    forall r :: r in a <==> r in b
  }

  lemma SameRulesSameReading(env: Env, request: SigningRequest, a: RuleSet, b: RuleSet, limited: bool)
    requires SameRules(a.rules, b.rules) && a.defaultAllow == b.defaultAllow
    ensures Declared(env, request, a, limited) == Declared(env, request, b, limited)
  {
    hide Check, Fires, MethodApplies, AddressIn, SelectorIn;
    FiltersGrow(env, request, a.rules, b.rules);
    FiltersGrow(env, request, b.rules, a.rules);
    forall g: Gate ensures Blocked(env, request, g, a.rules) <==> Blocked(env, request, g, b.rules) {
    }
  }

  lemma FiltersGrow(env: Env, request: SigningRequest, a: seq<Rule>, b: seq<Rule>)
    requires forall r :: r in a ==> r in b
    ensures ChainListed(a) ==> ChainListed(b)
    ensures ChainAllowed(request, a) ==> ChainAllowed(request, b)
    ensures ContractListed(request, a) ==> ContractListed(request, b)
    ensures ContractAllowed(env, request, a) ==> ContractAllowed(env, request, b)
    ensures MethodListed(env, request, a) ==> MethodListed(env, request, b)
    ensures MethodAllowed(env, request, a) ==> MethodAllowed(env, request, b)
    ensures QuorumWanted(env, request, a) ==> QuorumWanted(env, request, b)
  {
    hide MethodApplies, AddressIn, SelectorIn, Fires;
    forall i | 0 <= i < |a| ensures exists j :: 0 <= j < |b| && b[j] == a[i] {
      assert a[i] in a;
    }
  }

  /** The order of the rule list changes neither the kind of decision nor the reason for a denial. */
  lemma PermutationInvariant(env: Env, request: SigningRequest, a: RuleSet, b: RuleSet, clock: Clock, m: Buckets)
    requires Validated(env, a) && Permutation(a, b) && AlikePerScope(a.rules)
    ensures var x, y := Evaluated(env, request, a, clock, m).0, Evaluated(env, request, b, clock, m).0;
            x.Decided? && y.Decided? && Summarize(x.decision) == Summarize(y.decision)
  {
    hide Evaluated, Declared, RateScan, RuleOk, AlikePerScope, AllGranted;
    SamePermuted(a.rules, b.rules);
    PermutedValid(env, a, b);
    EvaluateRefines(env, request, a, clock, m);
    EvaluateRefines(env, request, b, clock, m);
    AlikePermutes(a.rules, b.rules);
    RateScanDeclarative(env, request, clock, a.rules, m);
    RateScanDeclarative(env, request, clock, b.rules, m);
    AllGrantedPermutes(env, request, clock, a.rules, b.rules, m);
    SameRulesSameReading(env, request, a, b, !RateScan(env, request, clock, a.rules, m).0);
  }

  lemma AllGrantedPermutes(env: Env, request: SigningRequest, clock: Clock, a: seq<Rule>, b: seq<Rule>, m: Buckets)
    requires SameRules(a, b) && multiset(a) == multiset(b)
    ensures AllGranted(env, request, clock, a, m) <==> AllGranted(env, request, clock, b, m)
  {
    hide Repeated;
  }

  // ------------------------------------------------------------ which quorum is asked for

  /** A quorum rule asks for a threshold, a total and an approver set. */
  predicate Demands(r: Rule, terms: (byte, byte, Ulid)) {
    r.RequireQuorum? && (r.threshold, r.total, r.approverSet) == terms
  }

  /** A quorum rule whose trigger the request fires. */
  predicate FiringRule(env: Env, request: SigningRequest, rules: seq<Rule>, r: Rule) {
    r in rules && r.RequireQuorum? && Fires(env, request, r.trigger).Fail?
  }

  predicate AsksFor(o: Outcome, terms: (byte, byte, Ulid)) {
    o.Decided? && o.decision.Quorum? && (o.decision.threshold, o.decision.total, o.decision.approverSet) == terms
  }

  lemma {:induction false} ScanFindsFiring(env: Env, request: SigningRequest, rules: seq<Rule>)
    requires QuorumScan(env, request, rules).FiredRule?
    ensures FiringRule(env, request, rules, QuorumScan(env, request, rules).rule)
  {
    hide Fires;
    if rules != [] && !(rules[0].RequireQuorum? && Fires(env, request, rules[0].trigger).Fail?) {
      ScanFindsFiring(env, request, rules[1..]);
    }
  }

  /** A quorum decision carries the terms of the first quorum rule that fires. */
  lemma QuorumIsFirstFiring(env: Env, request: SigningRequest, rs: RuleSet, clock: Clock, m: Buckets)
    requires Validated(env, rs)
    ensures var o, fired := Evaluated(env, request, rs, clock, m).0, QuorumScan(env, request, rs.rules);
            o.Decided? && o.decision.Quorum? ==>
              fired.FiredRule? && forall terms :: Demands(fired.rule, terms) ==> AsksFor(o, terms)
  {
    hide Scan, RateScan, QuorumScan, Validated;
    hide ChainListed, ChainAllowed, ContractListed, ContractAllowed, MethodListed, MethodAllowed;
    hide HitsAfter3, HitsAfter4, HitsAfter5;
  }

  /** The list with the rule at position i moved to the front. */
  function Promoted(rules: seq<Rule>, i: nat): (b: seq<Rule>)
    requires i < |rules|
    ensures multiset(b) == multiset(rules) && b[0] == rules[i]
  {
    assert rules == rules[..i] + [rules[i]] + rules[i + 1..];
    [rules[i]] + (rules[..i] + rules[i + 1..])
  }

  ghost predicate Permutation(a: RuleSet, b: RuleSet) {
    b == a.(rules := b.rules) && multiset(a.rules) == multiset(b.rules)
  }

  /** Moving a rule that is no rate-limit rule leaves the limiter gate as it was. */
  lemma PromotedScan(env: Env, request: SigningRequest, clock: Clock, rules: seq<Rule>, i: nat, m: Buckets)
    requires i < |rules| && !rules[i].RateLimit?
    ensures RateScan(env, request, clock, Promoted(rules, i), m) == RateScan(env, request, clock, rules, m)
  {
    hide RateScan;
    var before, r, after := rules[..i], rules[i], rules[i + 1..];
    assert rules == before + [r] + after;
    assert Promoted(rules, i) == [] + [r] + (before + after);
    assert [] + (before + after) == before + after;
    RateScanSkips(env, request, clock, before, r, after, m);
    RateScanSkips(env, request, clock, [], r, before + after, m);
  }

  /** A firing rule moved to the front gets its terms asked for. */
  lemma PromotedDecides(env: Env, request: SigningRequest, a: RuleSet, clock: Clock, m: Buckets, i: nat,
                        terms: (byte, byte, Ulid))
    requires Validated(env, a) && i < |a.rules|
    requires FiringRule(env, request, a.rules, a.rules[i]) && Demands(a.rules[i], terms)
    requires AsksForQuorum(Evaluated(env, request, a, clock, m).0)
    ensures AsksFor(Evaluated(env, request, a.(rules := Promoted(a.rules, i)), clock, m).0, terms)
  {
    hide Evaluated, Fires, RuleOk, Promoted, RateScan, Declared;
    var b := a.(rules := Promoted(a.rules, i));
    PermutedValid(env, a, b);
    PromotedScan(env, request, clock, a.rules, i, m);
    EvaluateRefines(env, request, a, clock, m);
    EvaluateRefines(env, request, b, clock, m);
    SamePermuted(a.rules, b.rules);
    SameRulesSameReading(env, request, a, b, !RateScan(env, request, clock, a.rules, m).0);
    QuorumIsFirstFiring(env, request, b, clock, m);
  }

  lemma SamePermuted(a: seq<Rule>, b: seq<Rule>)
    requires multiset(a) == multiset(b)
    ensures SameRules(a, b)
  {
    forall r ensures r in a <==> r in b {
      assert r in a <==> r in multiset(a);
      assert r in b <==> r in multiset(b);
    }
  }

  lemma PermutedValid(env: Env, a: RuleSet, b: RuleSet)
    requires Validated(env, a) && Permutation(a, b)
    ensures Validated(env, b)
  {
    hide RuleOk;
    forall i | 0 <= i < |b.rules| ensures RuleOk(env, b.rules[i]) {
      assert b.rules[i] in multiset(b.rules);
      assert b.rules[i] in a.rules;
    }
  }

  predicate AsksForQuorum(o: Outcome) {
    o.Decided? && o.decision.Quorum?
  }

  /**
   When a quorum is asked for, every permutation of the list that asks for one asks
   for the same threshold, total and approver set if and only if all firing quorum
   rules do.
   */
  lemma QuorumTermsExactly(env: Env, request: SigningRequest, a: RuleSet, clock: Clock, m: Buckets,
                           terms: (byte, byte, Ulid))
    requires Validated(env, a) && AsksFor(Evaluated(env, request, a, clock, m).0, terms)
    ensures (forall b :: Permutation(a, b) && AsksForQuorum(Evaluated(env, request, b, clock, m).0)
                         ==> AsksFor(Evaluated(env, request, b, clock, m).0, terms))
            <==> (forall r :: FiringRule(env, request, a.rules, r) ==> Demands(r, terms))
  {
    hide Evaluated, Validated, FiringRule;
    if forall r :: FiringRule(env, request, a.rules, r) ==> Demands(r, terms) {
      forall b | Permutation(a, b) && AsksForQuorum(Evaluated(env, request, b, clock, m).0)
        ensures AsksFor(Evaluated(env, request, b, clock, m).0, terms)
      {
        PermutedTerms(env, request, a, b, clock, m, terms);
      }
    }
    if forall b :: Permutation(a, b) && AsksForQuorum(Evaluated(env, request, b, clock, m).0)
                   ==> AsksFor(Evaluated(env, request, b, clock, m).0, terms) {
      forall r | FiringRule(env, request, a.rules, r) ensures Demands(r, terms) {
        var i := FiringPosition(env, request, a.rules, r);
        PromotedDecides(env, request, a, clock, m, i, (r.threshold, r.total, r.approverSet));
        assert Permutation(a, a.(rules := Promoted(a.rules, i)));
      }
    }
  }

  lemma FiringPosition(env: Env, request: SigningRequest, rules: seq<Rule>, r: Rule) returns (i: nat)
    requires FiringRule(env, request, rules, r)
    ensures i < |rules| && rules[i] == r && r.RequireQuorum?
  {
    i :| i < |rules| && rules[i] == r;
  }

  lemma PermutedTerms(env: Env, request: SigningRequest, a: RuleSet, b: RuleSet, clock: Clock, m: Buckets,
                      terms: (byte, byte, Ulid))
    requires Validated(env, a) && Permutation(a, b) && AsksForQuorum(Evaluated(env, request, b, clock, m).0)
    requires forall r :: FiringRule(env, request, a.rules, r) ==> Demands(r, terms)
    ensures AsksFor(Evaluated(env, request, b, clock, m).0, terms)
  {
    hide Evaluated, Validated, Fires, QuorumScan;
    PermutedValid(env, a, b);
    QuorumIsFirstFiring(env, request, b, clock, m);
    ScanFindsFiring(env, request, b.rules);
    SamePermuted(a.rules, b.rules);
    assert FiringRule(env, request, a.rules, QuorumScan(env, request, b.rules).rule);
  }

  /** Two quorum rules that always fire: whichever comes first sets the threshold. */
  lemma QuorumOrderMatters(env: Env, request: SigningRequest, approvers: Ulid, clock: Clock)
    ensures var a, b := QuorumPair(approvers, 1, 4), QuorumPair(approvers, 4, 1);
            && Validated(env, a) && Validated(env, b) && Permutation(a, b)
            && AsksFor(Evaluated(env, request, a, clock, map[]).0, (1, 5, approvers))
            && AsksFor(Evaluated(env, request, b, clock, map[]).0, (4, 5, approvers))
  {
    hide AsksFor, Validated;
    QuorumPairAsks(env, request, approvers, clock, 1, 4);
    QuorumPairAsks(env, request, approvers, clock, 4, 1);
    var a, b := QuorumPair(approvers, 1, 4), QuorumPair(approvers, 4, 1);
    assert a.rules == [a.rules[0]] + [a.rules[1]] && b.rules == [a.rules[1]] + [a.rules[0]];
  }

  function QuorumPair(approvers: Ulid, first: byte, second: byte): RuleSet {
    RuleSet(1, [RequireQuorum(first, 5, approvers, Always), RequireQuorum(second, 5, approvers, Always)], true)
  }

  lemma QuorumPairAsks(env: Env, request: SigningRequest, approvers: Ulid, clock: Clock, first: byte, second: byte)
    requires 0 < first <= 5 && 0 < second <= 5
    ensures var rs := QuorumPair(approvers, first, second);
            Validated(env, rs) && AsksFor(Evaluated(env, request, rs, clock, map[]).0, (first, 5, approvers))
  {
    hide Evaluated, RateScan, Declared, AddressesOk, SelectorsOk;
    var rs := QuorumPair(approvers, first, second);
    EvaluateRefines(env, request, rs, clock, map[]);
    OnlyQuorumRules(env, request, rs, clock, map[]);
    QuorumIsFirstFiring(env, request, rs, clock, map[]);
  }

  /** A list of quorum rules alone, one of which fires, asks for a quorum. */
  lemma OnlyQuorumRules(env: Env, request: SigningRequest, rs: RuleSet, clock: Clock, m: Buckets)
    requires |rs.rules| == 2 && rs.rules[0].RequireQuorum? && rs.rules[1].RequireQuorum?
    requires Fires(env, request, rs.rules[0].trigger).Fail?
    ensures RateScan(env, request, clock, rs.rules, m).0
    ensures Declared(env, request, rs, false) == NeedsQuorum
  {
    hide AddressIn, SelectorIn, Fires, ShapeVerdict, AtMost, TimeWindowContains;
    assert rs.rules[0] in rs.rules;
    var rest := rs.rules[1..];
    assert RateScan(env, request, clock, rest[1..], m) == (true, m) by { assert rest[1..] == []; }
    assert RateScan(env, request, clock, rest, m) == RateScan(env, request, clock, rest[1..], m);
    forall r | r in rs.rules ensures r.RequireQuorum? {
    }
  }

  /** With two rate-limit rules on one scope the order can decide: the first call sizes the shared bucket. */
  lemma SharedScopeOrderMatters(env: Env, request: SigningRequest, scope: Scope, clock: Clock)
    ensures var a, b := RatePair(scope, 1, 2), RatePair(scope, 2, 1);
            && Validated(env, a) && Validated(env, b) && multiset(a.rules) == multiset(b.rules)
            && Decides(env, request, a, clock, map[], DeniedFor(Other("rate limited")))
            && Decides(env, request, b, clock, map[], Allowed)
  {
    hide Decides, Validated;
    RatePairDecides(env, request, scope, clock, 1, 2);
    RatePairDecides(env, request, scope, clock, 2, 1);
  }

  function RatePair(scope: Scope, first: nat, second: nat): RuleSet {
    RuleSet(1, [Rule.RateLimit(first, 0, scope), Rule.RateLimit(second, 0, scope)], true)
  }

  predicate Decides(env: Env, request: SigningRequest, rs: RuleSet, clock: Clock, m: Buckets, s: Summary) {
    var outcome := Evaluated(env, request, rs, clock, m).0;
    outcome.Decided? && Summarize(outcome.decision) == s
  }

  lemma RatePairDecides(env: Env, request: SigningRequest, scope: Scope, clock: Clock, first: nat, second: nat)
    requires first > 0 && second > 0
    ensures var rs := RatePair(scope, first, second);
            && Validated(env, rs)
            && Decides(env, request, rs, clock, map[], if first >= 2 then Allowed else DeniedFor(Other("rate limited")))
  {
    hide Evaluated, RateScan, Declared, AddressesOk, SelectorsOk;
    var rs := RatePair(scope, first, second);
    TwoRateRules(env, request, scope, clock, first, second);
    EvaluateRefines(env, request, rs, clock, map[]);
    OnlyRateRules(env, request, rs, first < 2);
  }

  lemma OnlyRateRules(env: Env, request: SigningRequest, rs: RuleSet, limited: bool)
    requires forall r :: r in rs.rules ==> r.RateLimit?
    ensures Declared(env, request, rs, limited)
            == if limited then DeniedFor(Other("rate limited"))
               else if rs.defaultAllow then Allowed else DeniedFor(Other("policy default"))
  {
    hide AddressIn, SelectorIn, Fires, ShapeVerdict, AtMost, TimeWindowContains;
    forall i | 0 <= i < |rs.rules| ensures rs.rules[i].RateLimit? {
      assert rs.rules[i] in rs.rules;
    }
  }

  /** Two rules without refill on one fresh bucket: the first one's tokens are all there is. */
  lemma TwoRateRules(env: Env, request: SigningRequest, scope: Scope, clock: Clock, first: nat, second: nat)
    requires first > 0 && second > 0
    ensures RateScan(env, request, clock, RatePair(scope, first, second).rules, map[]).0 <==> first >= 2
  {
    hide RateLimitKey;
    var rules := [Rule.RateLimit(first, 0, scope), Rule.RateLimit(second, 0, scope)];
    var next := Acquire(map[], CallFor(env, request, clock, rules[0])).1;
    assert RateScan(env, request, clock, rules, map[]) == RateScan(env, request, clock, rules[1..], next);
    var last := Acquire(next, CallFor(env, request, clock, rules[1]));
    assert RateScan(env, request, clock, rules[1..][1..], last.1).0;
    assert last.0 <==> first >= 2;
  }

  // ------------------------------------------------------------ adding a restrictive rule

  function Rank(s: Summary): nat {
    match s
    case DeniedFor(_) => 0
    case NeedsQuorum => 1
    case Allowed => 2
  }

  predicate Restrictive(r: Rule) {
    r.DenyChain? || r.DenyContract? || r.ValueCap? || r.TimeWindow? || r.VmShape?
  }

  lemma {:induction false} RateScanSkips(env: Env, request: SigningRequest, clock: Clock,
                                         before: seq<Rule>, r: Rule, after: seq<Rule>, m: Buckets)
    requires !r.RateLimit?
    ensures RateScan(env, request, clock, before + [r] + after, m) == RateScan(env, request, clock, before + after, m)
    decreases |before|
  {
    hide Acquire;
    if before == [] {
      assert before + [r] + after == [r] + after && before + after == after;
      assert ([r] + after)[1..] == after;
    } else {
      var more, fewer := before + [r] + after, before + after;
      assert more[1..] == before[1..] + [r] + after && fewer[1..] == before[1..] + after;
      if before[0].RateLimit? {
        RateScanSkips(env, request, clock, before[1..], r, after,
                      Acquire(m, CallFor(env, request, clock, before[0])).1);
      } else {
        RateScanSkips(env, request, clock, before[1..], r, after, m);
      }
    }
  }

  /** Two rule lists, the second with one restrictive rule more. */
  ghost predicate AddsOnly(a: seq<Rule>, b: seq<Rule>, extra: Rule) {
    forall r :: r in b <==> r in a || r == extra
  }

  /** A restrictive rule at the end of the list means nothing to the filters and the quorum gate. */
  lemma FiltersIgnoreLast(env: Env, request: SigningRequest, a: seq<Rule>, extra: Rule)
    requires Restrictive(extra)
    ensures var b := a + [extra];
            && (ChainListed(b) ==> ChainListed(a))
            && (ChainAllowed(request, b) ==> ChainAllowed(request, a))
            && (ContractListed(request, b) ==> ContractListed(request, a))
            && (ContractAllowed(env, request, b) ==> ContractAllowed(env, request, a))
            && (MethodListed(env, request, b) ==> MethodListed(env, request, a))
            && (MethodAllowed(env, request, b) ==> MethodAllowed(env, request, a))
            && (QuorumWanted(env, request, b) ==> QuorumWanted(env, request, a))
  {
    hide AddressIn, SelectorIn, Fires;
    var b := a + [extra];
    forall i | 0 <= i < |b| && b[i] != extra ensures i < |a| && b[i] == a[i] {
    }
  }

  lemma FiltersIgnoreExtra(env: Env, request: SigningRequest, a: seq<Rule>, b: seq<Rule>, extra: Rule)
    requires AddsOnly(a, b, extra) && Restrictive(extra)
    ensures ChainListed(a) <==> ChainListed(b)
    ensures ChainAllowed(request, a) <==> ChainAllowed(request, b)
    ensures ContractListed(request, a) <==> ContractListed(request, b)
    ensures ContractAllowed(env, request, a) <==> ContractAllowed(env, request, b)
    ensures MethodListed(env, request, a) <==> MethodListed(env, request, b)
    ensures MethodAllowed(env, request, a) <==> MethodAllowed(env, request, b)
    ensures QuorumWanted(env, request, a) <==> QuorumWanted(env, request, b)
  {
    hide ChainListed, ChainAllowed, ContractListed, ContractAllowed, MethodListed, MethodAllowed, QuorumWanted,
        Restrictive;
    FiltersGrow(env, request, a, b);
    FiltersGrow(env, request, b, a + [extra]);
    FiltersIgnoreLast(env, request, a, extra);
  }

  lemma BlockedGrows(env: Env, request: SigningRequest, g: Gate, a: seq<Rule>, b: seq<Rule>, extra: Rule)
    requires AddsOnly(a, b, extra) && Blocked(env, request, g, a)
    ensures Blocked(env, request, g, b)
  {
    hide Check;
    var r :| r in a && Check(env, request, g, r).Fail?;
    assert r in b;
  }

  lemma ExtraNeverLoosens(env: Env, request: SigningRequest, a: RuleSet, b: RuleSet, extra: Rule, limited: bool)
    requires AddsOnly(a.rules, b.rules, extra) && Restrictive(extra) && a.defaultAllow == b.defaultAllow
    ensures Rank(Declared(env, request, b, limited)) <= Rank(Declared(env, request, a, limited))
  {
    hide Blocked, QuorumWanted, ChainListed, ChainAllowed, ContractListed, ContractAllowed, MethodListed,
        MethodAllowed, Restrictive;
    FiltersIgnoreExtra(env, request, a.rules, b.rules, extra);
    if Blocked(env, request, ChainGate, a.rules) { BlockedGrows(env, request, ChainGate, a.rules, b.rules, extra); }
    if Blocked(env, request, ContractGate,
               a.rules) { BlockedGrows(env, request, ContractGate, a.rules, b.rules, extra); }
    if Blocked(env, request, CapGate, a.rules) { BlockedGrows(env, request, CapGate, a.rules, b.rules, extra); }
    if Blocked(env, request, WindowGate, a.rules) { BlockedGrows(env, request, WindowGate, a.rules, b.rules, extra); }
    if Blocked(env, request, ShapeGate, a.rules) { BlockedGrows(env, request, ShapeGate, a.rules, b.rules, extra); }
  }

  /** Adding a restrictive rule anywhere in the list never moves a decision up the order deny, quorum, allow. */
  lemma RestrictiveRuleOnlyTightens(env: Env, request: SigningRequest, a: RuleSet, at: nat, extra: Rule,
                                    clock: Clock, m: Buckets)
    requires at <= |a.rules| && Restrictive(extra) && Validated(env, a) && RuleOk(env, extra)
    ensures var b := a.(rules := a.rules[..at] + [extra] + a.rules[at..]);
            var x, y := Evaluated(env, request, a, clock, m).0, Evaluated(env, request, b, clock, m).0;
            x.Decided? && y.Decided? && Rank(Summarize(y.decision)) <= Rank(Summarize(x.decision))
  {
    hide Evaluated, Declared, RateScan, RuleOk, Restrictive, Rank, Summarize;
    var b := a.(rules := a.rules[..at] + [extra] + a.rules[at..]);
    assert a.rules == a.rules[..at] + a.rules[at..];
    forall i | 0 <= i < |b.rules| ensures RuleOk(env, b.rules[i]) {
      if i < at { assert b.rules[i] == a.rules[i]; } else if i > at { assert b.rules[i] == a.rules[i - 1]; }
    }
    assert AddsOnly(a.rules, b.rules, extra);
    EvaluateRefines(env, request, a, clock, m);
    EvaluateRefines(env, request, b, clock, m);
    assert !extra.RateLimit? by { RestrictiveIsNotRateLimit(extra); }
    RateScanSkips(env, request, clock, a.rules[..at], extra, a.rules[at..], m);
    ExtraNeverLoosens(env, request, a, b, extra, !RateScan(env, request, clock, a.rules, m).0);
  }

  lemma RestrictiveIsNotRateLimit(r: Rule)
    requires Restrictive(r)
    ensures !r.RateLimit?
  {
  }

  // ------------------------------------------------------------ admission

  predicate Admits(o: Outcome) {
    o.Decided? && !o.decision.Deny?
  }

  lemma FrontNeverAdmits(env: Env, request: SigningRequest, rules: seq<Rule>)
    ensures var f := Front(env, request, rules); f.Some? ==> !Admits(f.value)
  {
    hide Scan, ChainListed, ChainAllowed, ContractListed, ContractAllowed, MethodListed, MethodAllowed;
    hide HitsAfter3, HitsAfter4, HitsAfter5;
  }

  const RATE_LIMITED := DeniedFor(Other("rate limited"))

  /** Gates 1 to 7 decide exactly when the limiter's answer plays no part. */
  lemma FrontIsEarly(env: Env, request: SigningRequest, rs: RuleSet)
    requires Validated(env, rs)
    ensures Front(env, request, rs.rules).Some?
            <==> Declared(env, request, rs, true) == Declared(env, request, rs, false)
    ensures Front(env, request, rs.rules).None?
            ==> Declared(env, request, rs, true) == RATE_LIMITED && Declared(env, request, rs, false) != RATE_LIMITED
  {
    hide Scan, Blocked, QuorumWanted, RuleOk, Check;
    hide ChainListed, ChainAllowed, ContractListed, ContractAllowed, MethodListed, MethodAllowed;
    hide HitsAfter3, HitsAfter4, HitsAfter5;
    ScanIsBlocked(env, request, ChainGate, rs.rules);
    ScanIsBlocked(env, request, ContractGate, rs.rules);
    ScanIsBlocked(env, request, CapGate, rs.rules);
    ScanIsBlocked(env, request, WindowGate, rs.rules);
  }
}
