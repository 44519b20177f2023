/**
 The policy evaluator (crates/qfc-policy/src/rule_set_policy.rs): eleven gates in
 a fixed order over an unordered rule list, with the token-bucket limiter in the
 middle. Hex and decimal parsing and the VM decoder are parameters.
 */
module RuleSetPolicy {
  import opened Bytes
  import opened WalletTypes
  import opened RateLimit

  datatype Scope = PerWallet | PerRequester | PerWalletRequester

  datatype Trigger = Always | ValueGte(chainId: nat, value: string) | OutsideTimeWindow(mask: byte, start: byte,
                                                                                        end: byte)

  datatype Rule =
    | AllowChain(chainIds: seq<nat>)
    | DenyChain(chainIds: seq<nat>)
    | AllowContract(chainId: nat, addresses: seq<string>)
    | DenyContract(chainId: nat, addresses: seq<string>)
    | AllowMethod(chainId: nat, contract: Option<string>, selectors: seq<string>)
    | ValueCap(chainId: nat, maxValue: string)
    | TimeWindow(mask: byte, start: byte, end: byte)
    | RateLimit(tokens: nat, refillPerSecs: nat, scope: Scope)
    | RequireQuorum(threshold: byte, total: byte, approverSet: Ulid, trigger: Trigger)
    | VmShape(vm: VmType, maxGas: Option<nat>, allowedSelectors: Option<seq<string>>, maxValue': Option<string>)

  datatype RuleSet = RuleSet(version: nat, rules: seq<Rule>, defaultAllow: bool)

  datatype DecodedTx = DecodedTx(value: Option<nat>, gasLimit: Option<nat>, methodSelector: Option<Bytes>)

  /** Parsers, and the decoder; a policy without a decoder has one that always answers none. */
  datatype Env = Env(
    hex: string -> Option<Bytes>,
    u256: string -> Option<nat>,
    decoder: (VmType, Bytes) -> Option<DecodedTx>,
    requesterKey: Requester -> Bytes)

  datatype Effect = AllowEffect | DenyEffect | QuorumEffect
  datatype RuleHit = RuleHit(ruleId: string, effect: Effect)
  datatype DenyReason = ChainNotAllowed | ChainDenied | Other(text: string)

  datatype Decision =
    | Allow(rationale: seq<RuleHit>)
    | Deny(reason: DenyReason, rationale: seq<RuleHit>)
    | Quorum(threshold: byte, total: byte, approverSet: Ulid, rationale: seq<RuleHit>)

  datatype Outcome = Decided(decision: Decision) | Misconfigured

  // ------------------------------------------------------------ the request, as the gates see it

  function To(request: SigningRequest): Option<Bytes> {
    if request.payload.VmTransaction? then request.payload.to else None
  }

  function Decoded(env: Env, request: SigningRequest): Option<DecodedTx> {
    if request.payload.VmTransaction? then env.decoder(request.payload.vm, request.payload.raw) else None
  }

  function DecodedValue(env: Env, request: SigningRequest): Option<nat> {
    var d := Decoded(env, request);
    if d.Some? then d.value.value else None
  }

  function DecodedSelector(env: Env, request: SigningRequest): Option<Bytes> {
    var d := Decoded(env, request);
    if d.Some? then d.value.methodSelector else None
  }

  function DecodedGas(env: Env, request: SigningRequest): Option<nat> {
    var d := Decoded(env, request);
    if d.Some? then d.value.gasLimit else None
  }

  predicate AddressIn(env: Env, addresses: seq<string>, to: Bytes) {
    exists i :: 0 <= i < |addresses| && env.hex(addresses[i]) == Some(to)
  }

  predicate SelectorIn(env: Env, selectors: seq<string>, selector: Bytes) {
    exists i :: 0 <= i < |selectors| && env.hex(selectors[i]) == Some(selector)
  }

  // ------------------------------------------------------------ time windows

  /** i64 division truncates toward zero. */
  function TruncDiv(a: int, b: int): int
    requires b > 0
  {
    if a >= 0 then a / b else -((-a) / b)
  }

  predicate BitSet(mask: byte, bit: nat)
    requires bit < 7
  {
    var p := if bit == 0 then 1 else if bit == 1 then 2 else if bit == 2 then 4 else if bit == 3 then 8
             else if bit == 4 then 16 else if bit == 5 then 32 else 64;
    (mask / p) % 2 == 1
  }

  /** Representable timestamps: years -9999 to 9999. */
  predicate DateInRange(secs: int) {
    -377705116800 <= secs <= 253402300799
  }

  /** Days since the epoch, shifted so that Monday is 0; 1970-01-01 was a Thursday. */
  function WeekdayIndex(secs: int): (d: nat)
    ensures d < 7
  {
    (secs / 86400 + 3) % 7
  }

  function HourOf(secs: int): (h: nat)
    ensures h < 24
  {
    (secs % 86400) / 3600
  }

  predicate HourInWindow(hour: nat, start: byte, end: byte) {
    if end > start then start <= hour < end else hour >= start || hour < end
  }

  predicate TimeWindowContains(unixMs: int, mask: byte, start: byte, end: byte) {
    var secs := TruncDiv(unixMs, 1000);
    DateInRange(secs) && BitSet(mask, WeekdayIndex(secs)) && HourInWindow(HourOf(secs), start, end)
  }

  /** A window and the window from its end back to its start split each enabled day between them. */
  lemma WindowsPartitionDay(unixMs: int, mask: byte, start: byte, end: byte)
    requires start != end && start < 24 && end < 24
    ensures var secs := TruncDiv(unixMs, 1000);
            && !(TimeWindowContains(unixMs, mask, start, end) && TimeWindowContains(unixMs, mask, end, start))
            && (TimeWindowContains(unixMs, mask, start, end) || TimeWindowContains(unixMs, mask, end, start)
                <==> DateInRange(secs) && BitSet(mask, WeekdayIndex(secs)))
  {
    hide BitSet, WeekdayIndex, HourOf, TruncDiv;
  }

  // ------------------------------------------------------------ gates that look at one rule at a time

  /** What one rule says: nothing, no (with the id it leaves in the trace), or "I cannot be parsed". */
  datatype Verdict = Pass | Fail(ruleId: string) | Broken

  /** The five restrictive kinds: each such rule can only deny. */
  datatype Gate = ChainGate | ContractGate | CapGate | WindowGate | ShapeGate

  function Check(env: Env, request: SigningRequest, g: Gate, r: Rule): Verdict {
    match g
    case ChainGate =>
      if r.DenyChain? && request.payload.Chain().Some? && request.payload.Chain().value in r.chainIds
      then Fail("deny-chain") else Pass
    case ContractGate =>
      if r.DenyContract? && request.payload.Chain() == Some(r.chainId) && To(request).Some?
         && AddressIn(env, r.addresses, To(request).value) then Fail("deny-contract") else Pass
    case CapGate =>
      if r.ValueCap? && request.payload.Chain() == Some(r.chainId)
          then AtMost(env, request, r.maxValue, "value-cap") else Pass
    case WindowGate =>
      if r.TimeWindow? && !TimeWindowContains(request.receivedAtUnixMs, r.mask, r.start, r.end)
      then Fail("time-window") else Pass
    case ShapeGate =>
      if r.VmShape? && request.payload.Vm() == Some(r.vm) then ShapeVerdict(env, request, r) else Pass
  }

  /** The decoded value, if any, against a decimal bound. */
  function AtMost(env: Env, request: SigningRequest, bound: string, ruleId: string): Verdict {
    var max := env.u256(bound);
    if max.None? then Broken
    else if DecodedValue(env, request).Some? && DecodedValue(env, request).value > max.value then Fail(ruleId) else Pass
  }

  function ShapeVerdict(env: Env, request: SigningRequest, r: Rule): Verdict
    requires r.VmShape?
  {
    var byValue := if r.maxValue'.Some? then AtMost(env, request, r.maxValue'.value, "vm-shape-max-value") else Pass;
    if byValue != Pass then byValue
    else if r.maxGas.Some? && DecodedGas(env, request).Some? && DecodedGas(env, request).value > r.maxGas.value
    then Fail("vm-shape-max-gas")
    else if r.allowedSelectors.Some? && DecodedSelector(env, request).Some?
            && !SelectorIn(env, r.allowedSelectors.value, DecodedSelector(env, request).value)
                then Fail("vm-shape-method")
    else Pass
  }

  /** A gate scans the rules in list order and stops at the first that does not pass. */
  function Scan(env: Env, request: SigningRequest, g: Gate, rules: seq<Rule>): Verdict {
    if rules == [] then Pass
    else
      var v := Check(env, request, g, rules[0]);
      if v != Pass then v else Scan(env, request, g, rules[1..])
  }

  // ------------------------------------------------------------ filters

  predicate ChainListed(rules: seq<Rule>) {
    exists i :: 0 <= i < |rules| && rules[i].AllowChain?
  }

  predicate ChainAllowed(request: SigningRequest, rules: seq<Rule>) {
    request.payload.Chain().Some?
    && exists i :: 0 <= i < |rules| && rules[i].AllowChain? && request.payload.Chain().value in rules[i].chainIds
  }

  predicate ContractListed(request: SigningRequest, rules: seq<Rule>) {
    exists i :: 0 <= i < |rules| && rules[i].AllowContract? && request.payload.Chain() == Some(rules[i].chainId)
  }

  predicate ContractAllowed(env: Env, request: SigningRequest, rules: seq<Rule>) {
    To(request).Some?
    && exists i :: 0 <= i < |rules| && rules[i].AllowContract? && request.payload.Chain() == Some(rules[i].chainId)
                   && AddressIn(env, rules[i].addresses, To(request).value)
  }

  predicate MethodApplies(env: Env, request: SigningRequest, r: Rule) {
    && r.AllowMethod? && request.payload.Chain() == Some(r.chainId)
    && (r.contract.None? || (To(request).Some? && env.hex(r.contract.value) == To(request)))
  }

  predicate MethodListed(env: Env, request: SigningRequest, rules: seq<Rule>) {
    exists i :: 0 <= i < |rules| && MethodApplies(env, request, rules[i])
  }

  predicate MethodAllowed(env: Env, request: SigningRequest, rules: seq<Rule>) {
    DecodedSelector(env, request).Some?
    && exists i :: 0 <= i < |rules| && MethodApplies(env, request, rules[i])
                   && SelectorIn(env, rules[i].selectors, DecodedSelector(env, request).value)
  }

  // ------------------------------------------------------------ the limiter gate

  const WALLET_TAG: Bytes := [0x77, 0x61, 0x6c, 0x6c, 0x65, 0x74, 0x3a]
  const REQUESTER_TAG: Bytes := [0x72, 0x65, 0x71, 0x3a]
  const BOTH_TAG: Bytes := [0x77, 0x72, 0x3a]

  /** The bucket key: "wallet:<id>", "req:<requester>" or "wr:<id>|<requester>". */
  function RateLimitKey(env: Env, scope: Scope, request: SigningRequest): Bytes {
    match scope
    case PerWallet => WALLET_TAG + request.walletId
    case PerRequester => REQUESTER_TAG + env.requesterKey(request.requester)
    case PerWalletRequester => BOTH_TAG + request.walletId + [0x7c] + env.requesterKey(request.requester)
  }

  /** Buckets of different scopes never share a key, not even across requests. */
  lemma ScopesApart(env: Env, a: Scope, b: Scope, r: SigningRequest, s: SigningRequest)
    requires RateLimitKey(env, a, r) == RateLimitKey(env, b, s)
    ensures a == b
  {
    var x, y := RateLimitKey(env, a, r), RateLimitKey(env, b, s);
    assert x[0] == (if a.PerRequester? then 0x72 else 0x77) && y[0] == (if b.PerRequester? then 0x72 else 0x77);
    assert x[1] == (if a.PerWallet? then 0x61 else if a.PerRequester? then 0x65 else 0x72);
    assert y[1] == (if b.PerWallet? then 0x61 else if b.PerRequester? then 0x65 else 0x72);
  }

  /** The clock value read when a rule's bucket is tried. */
  type Clock = Rule -> int

  function CallFor(env: Env, request: SigningRequest, clock: Clock, r: Rule): Call
    requires r.RateLimit?
  {
    Call(RateLimitKey(env, r.scope, request), r.tokens, r.refillPerSecs, clock(r))
  }

  /** One limiter call per rate-limit rule, up to the first refusal. */
  function RateScan(env: Env, request: SigningRequest, clock: Clock, rules: seq<Rule>, m: Buckets): (bool, Buckets)
    decreases |rules|
  {
    if rules == [] then (true, m)
    else if !rules[0].RateLimit? then RateScan(env, request, clock, rules[1..], m)
    else
      var (ok, next) := Acquire(m, CallFor(env, request, clock, rules[0]));
      if ok then RateScan(env, request, clock, rules[1..], next) else (false, next)
  }

  // ------------------------------------------------------------ the quorum gate

  datatype Fired = NoneFired | BadTrigger | FiredRule(rule: Rule)

  function Fires(env: Env, request: SigningRequest, trigger: Trigger): Verdict {
    match trigger
    case Always => Fail("require-quorum")
    case ValueGte(chainId, value) =>
      var threshold := env.u256(value);
      if threshold.None? then Broken
      else if request.payload.Chain() == Some(chainId) && DecodedValue(env, request).Some?
              && DecodedValue(env, request).value >= threshold.value then Fail("require-quorum")
      else Pass
    case OutsideTimeWindow(mask, start, end) =>
      if TimeWindowContains(request.receivedAtUnixMs, mask, start, end) then Pass else Fail("require-quorum")
  }

  function QuorumScan(env: Env, request: SigningRequest, rules: seq<Rule>): (r: Fired)
    ensures r.FiredRule? ==> r.rule.RequireQuorum?
  {
    if rules == [] then NoneFired
    else if !rules[0].RequireQuorum? then QuorumScan(env, request, rules[1..])
    else
      match Fires(env, request, rules[0].trigger)
      case Broken => BadTrigger
      case Fail(_) => FiredRule(rules[0])
      case Pass => QuorumScan(env, request, rules[1..])
  }

  // ------------------------------------------------------------ the evaluator

  /** Hits recorded by the filters that passed. */
  function HitsAfter3(rules: seq<Rule>): seq<RuleHit> {
    if ChainListed(rules) then [RuleHit("allow-chain-filter", AllowEffect)] else []
  }

  function HitsAfter4(request: SigningRequest, rules: seq<Rule>): seq<RuleHit> {
    HitsAfter3(rules) + if ContractListed(request, rules) then [RuleHit("allow-contract-filter", AllowEffect)] else []
  }

  function HitsAfter5(env: Env, request: SigningRequest, rules: seq<Rule>): seq<RuleHit> {
    HitsAfter4(request, rules)
    + if MethodListed(env, request, rules) then [RuleHit("allow-method-filter", AllowEffect)] else []
  }

  function Denied(reason: DenyReason, hits: seq<RuleHit>, ruleId: string): Outcome {
    Decided(Deny(reason, hits + [RuleHit(ruleId, DenyEffect)]))
  }

  /** Gates 1 to 7: a final outcome, or none when all pass. */
  function Front(env: Env, request: SigningRequest, rules: seq<Rule>): Option<Outcome> {
    if Scan(env, request, ChainGate, rules) != Pass then Some(Denied(ChainDenied, [], "deny-chain"))
    else if Scan(env, request, ContractGate, rules) != Pass
        then Some(Denied(Other("contract denied"), [], "deny-contract"))
    else if ChainListed(rules) && !ChainAllowed(request, rules) then
      Some(Denied(ChainNotAllowed, [], "allow-chain-filter"))
    else if ContractListed(request, rules) && !ContractAllowed(env, request, rules) then
      Some(Denied(Other("contract not on allow list"), HitsAfter3(rules), "allow-contract-filter"))
    else if MethodListed(env, request, rules) && !MethodAllowed(env, request, rules) then
      Some(Denied(Other("method not allowed"), HitsAfter4(request, rules), "allow-method-filter"))
    else
      var hits := HitsAfter5(env, request, rules);
      match Scan(env, request, CapGate, rules)
      case Broken => Some(Misconfigured)
      case Fail(id) => Some(Denied(Other("value cap exceeded"), hits, id))
      case Pass =>
        if Scan(env, request, WindowGate, rules) != Pass then
          Some(Denied(Other("outside time window"), hits, "time-window"))
        else None
  }

  /** Gates 9 to 11. */
  function Back(env: Env, request: SigningRequest, rs: RuleSet): Outcome {
    var hits := HitsAfter5(env, request, rs.rules);
    match Scan(env, request, ShapeGate, rs.rules)
    case Broken => Misconfigured
    case Fail(id) => Denied(Other("vm-shape constraint"), hits, id)
    case Pass =>
      match QuorumScan(env, request, rs.rules)
      case BadTrigger => Misconfigured
      case FiredRule(r) =>
        Decided(Quorum(r.threshold, r.total, r.approverSet, hits + [RuleHit("require-quorum", QuorumEffect)]))
      case NoneFired =>
        if rs.defaultAllow then Decided(Allow(hits + [RuleHit("default-allow", AllowEffect)]))
        else Denied(Other("policy default"), hits, "default-deny")
  }

  /** The whole evaluation: the outcome and the limiter after it. */
  function Evaluated(env: Env, request: SigningRequest, rs: RuleSet, clock: Clock, m: Buckets): (Outcome, Buckets) {
    var front := Front(env, request, rs.rules);
    if front.Some? then (front.value, m)
    else
      var (ok, next) := RateScan(env, request, clock, rs.rules, m);
      if !ok then (Denied(Other("rate limited"), HitsAfter5(env, request, rs.rules), "rate-limit"), next)
      else (Back(env, request, rs), next)
  }

  // The imperative evaluator: loops over the rules, a growing rationale, a shared limiter.

  method ScanGate(env: Env, request: SigningRequest, g: Gate, rules: seq<Rule>) returns (v: Verdict)
    ensures v == Scan(env, request, g, rules)
  {
    hide Check;
    for i := 0 to |rules|
      invariant Scan(env, request, g, rules[i..]) == Scan(env, request, g, rules)
    {
      assert rules[i..][1..] == rules[i + 1..];
      v := Check(env, request, g, rules[i]);
      if v != Pass {
        return;
      }
    }
    return Pass;
  }

  method FirstQuorum(env: Env, request: SigningRequest, rules: seq<Rule>) returns (r: Fired)
    ensures r == QuorumScan(env, request, rules)
  {
    hide Fires;
    for i := 0 to |rules|
      invariant QuorumScan(env, request, rules[i..]) == QuorumScan(env, request, rules)
    {
      assert rules[i..][1..] == rules[i + 1..];
      if rules[i].RequireQuorum? {
        var v := Fires(env, request, rules[i].trigger);
        match v {
          case Broken => return BadTrigger;
          case Fail(_) => return FiredRule(rules[i]);
          case Pass =>
        }
      }
    }
    return NoneFired;
  }

  method AcquireAll(env: Env, request: SigningRequest, clock: Clock, rules: seq<Rule>, limiter: TokenBucketLimiter)
    returns (ok: bool)
    modifies limiter
    ensures (ok, limiter.inner) == RateScan(env, request, clock, rules, old(limiter.inner))
  {
    hide Acquire;
    for i := 0 to |rules|
      invariant RateScan(env, request, clock, rules[i..], limiter.inner)
              == RateScan(env, request, clock, rules, old(limiter.inner))
    {
      assert rules[i..][1..] == rules[i + 1..];
      if rules[i].RateLimit? {
        var key := RateLimitKey(env, rules[i].scope, request);
        var granted := limiter.TryAcquire(key, rules[i].tokens, rules[i].refillPerSecs, clock(rules[i]));
        if !granted {
          return false;
        }
      }
    }
    return true;
  }

  method Evaluate(env: Env, request: SigningRequest, rs: RuleSet, clock: Clock, limiter: TokenBucketLimiter)
    returns (outcome: Outcome)
    modifies limiter
    ensures (outcome, limiter.inner) == Evaluated(env, request, rs, clock, old(limiter.inner))
  {
    hide Scan, RateScan, QuorumScan, ChainListed, ChainAllowed, ContractListed, ContractAllowed, MethodListed,
        MethodAllowed;
    var rules := rs.rules;
    var rationale: seq<RuleHit> := [];

    var v := ScanGate(env, request, ChainGate, rules);
    if v != Pass {
      return Denied(ChainDenied, rationale, "deny-chain");
    }
    v := ScanGate(env, request, ContractGate, rules);
    if v != Pass {
      return Denied(Other("contract denied"), rationale, "deny-contract");
    }
    if ChainListed(rules) {
      if !ChainAllowed(request, rules) {
        return Denied(ChainNotAllowed, rationale, "allow-chain-filter");
      }
      rationale := rationale + [RuleHit("allow-chain-filter", AllowEffect)];
    }
    assert rationale == HitsAfter3(rules);
    if ContractListed(request, rules) {
      if !ContractAllowed(env, request, rules) {
        return Denied(Other("contract not on allow list"), rationale, "allow-contract-filter");
      }
      rationale := rationale + [RuleHit("allow-contract-filter", AllowEffect)];
    }
    assert rationale == HitsAfter4(request, rules);
    if MethodListed(env, request, rules) {
      if !MethodAllowed(env, request, rules) {
        return Denied(Other("method not allowed"), rationale, "allow-method-filter");
      }
      rationale := rationale + [RuleHit("allow-method-filter", AllowEffect)];
    }
    assert rationale == HitsAfter5(env, request, rules);
    v := ScanGate(env, request, CapGate, rules);
    if v == Broken {
      return Misconfigured;
    }
    if v.Fail? {
      return Denied(Other("value cap exceeded"), rationale, v.ruleId);
    }
    v := ScanGate(env, request, WindowGate, rules);
    if v != Pass {
      return Denied(Other("outside time window"), rationale, "time-window");
    }
    var ok := AcquireAll(env, request, clock, rules, limiter);
    if !ok {
      return Denied(Other("rate limited"), rationale, "rate-limit");
    }
    v := ScanGate(env, request, ShapeGate, rules);
    if v == Broken {
      return Misconfigured;
    }
    if v.Fail? {
      return Denied(Other("vm-shape constraint"), rationale, v.ruleId);
    }
    var fired := FirstQuorum(env, request, rules);
    match fired {
      case BadTrigger => return Misconfigured;
      case FiredRule(r) =>
        return Decided(Quorum(r.threshold, r.total, r.approverSet, rationale
                              + [RuleHit("require-quorum", QuorumEffect)]));
      case NoneFired =>
        if rs.defaultAllow {
          return Decided(Allow(rationale + [RuleHit("default-allow", AllowEffect)]));
        }
        return Denied(Other("policy default"), rationale, "default-deny");
    }
  }

  // ------------------------------------------------------------ validation

  predicate SelectorsOk(env: Env, selectors: seq<string>) {
    forall i :: 0 <= i < |selectors| ==> env.hex(selectors[i]).Some? && |env.hex(selectors[i]).value| == 4
  }

  predicate AddressesOk(env: Env, addresses: seq<string>) {
    forall i :: 0 <= i < |addresses| ==> env.hex(addresses[i]).Some?
  }

  predicate RuleOk(env: Env, r: Rule) {
    match r
    case AllowChain(_) => true
    case DenyChain(_) => true
    case AllowContract(_, addresses) => AddressesOk(env, addresses)
    case DenyContract(_, addresses) => AddressesOk(env, addresses)
    case AllowMethod(_, contract, selectors) =>
      (contract.Some? ==> env.hex(contract.value).Some?) && SelectorsOk(env, selectors)
    case ValueCap(_, maxValue) => env.u256(maxValue).Some?
    case TimeWindow(mask, start, end) => mask < 128 && start <= 23 && end <= 24
    case RateLimit(tokens, _, _) => tokens > 0
    case RequireQuorum(threshold, total, _, trigger) =>
      0 < threshold <= total && (trigger.ValueGte? ==> env.u256(trigger.value).Some?)
    case VmShape(_, _, selectors, maxValue) =>
      (maxValue.Some? ==> env.u256(maxValue.value).Some?) && (selectors.Some? ==> SelectorsOk(env, selectors.value))
  }

  predicate Validated(env: Env, rs: RuleSet) {
    rs.version == 1 && forall i :: 0 <= i < |rs.rules| ==> RuleOk(env, rs.rules[i])
  }

  method Validate(env: Env, rs: RuleSet) returns (ok: bool)
    ensures ok == Validated(env, rs)
  {
    hide RuleOk;
    if rs.version != 1 {
      return false;
    }
    for i := 0 to |rs.rules|
      invariant forall j :: 0 <= j < i ==> RuleOk(env, rs.rules[j])
    {
      if !RuleOk(env, rs.rules[i]) {
        return false;
      }
    }
    return true;
  }
}
