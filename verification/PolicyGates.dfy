/**
 What each gate of the rule evaluator (crates/qfc-policy/src/rule_set_policy.rs) tests,
 in the fields of the rules and of the payload. `DecidesByFields` reads the decision off
 the rule list and the request without the evaluator's own checks; the lemmas after it
 do the same for the terms of a quorum, for the rationale and for validation.
 */
module PolicyGates {
  import opened Bytes
  import opened WalletTypes
  import opened RateLimit
  import opened RuleSetPolicy
  import opened PolicyLaws
  import Evm = EvmDecoder

  // ------------------------------------------------------------ deny lists and allow lists

  /** One of the hex texts denotes these bytes. */
  ghost predicate Denotes(env: Env, texts: seq<string>, b: Bytes) {
    exists t :: t in texts && env.hex(t) == Some(b)
  }

  ghost predicate OnDeniedChain(p: SigningPayload, rules: seq<Rule>) {
    p.VmTransaction? && exists r :: r in rules && r.DenyChain? && p.chainId in r.chainIds
  }

  ghost predicate ToDeniedContract(env: Env, p: SigningPayload, rules: seq<Rule>) {
    && p.VmTransaction? && p.to.Some?
    && exists r :: r in rules && r.DenyContract? && r.chainId == p.chainId && Denotes(env, r.addresses, p.to.value)
  }

  /** There is a chain list, and no chain list names the payload's chain. */
  ghost predicate OffChainLists(p: SigningPayload, rules: seq<Rule>) {
    && (exists r :: r in rules && r.AllowChain?)
    && !(p.VmTransaction? && exists r :: r in rules && r.AllowChain? && p.chainId in r.chainIds)
  }

  /** There is a contract list for the payload's chain, and no such list names its recipient. */
  ghost predicate OffContractLists(env: Env, p: SigningPayload, rules: seq<Rule>) {
    && p.VmTransaction?
    && (exists r :: r in rules && r.AllowContract? && r.chainId == p.chainId)
    && !(p.to.Some? && exists r :: r in rules && r.AllowContract? && r.chainId == p.chainId
                                   && Denotes(env, r.addresses, p.to.value))
  }

  /** A method rule for the payload's chain, and for its recipient if it names a contract. */
  ghost predicate Covers(env: Env, p: SigningPayload, r: Rule) {
    && p.VmTransaction? && r.AllowMethod? && r.chainId == p.chainId
    && (r.contract.Some? ==> p.to.Some? && env.hex(r.contract.value) == Some(p.to.value))
  }

  /** What the decoder makes of the payload's bytes. */
  ghost function Seen(env: Env, p: SigningPayload): Option<DecodedTx> {
    if p.VmTransaction? then env.decoder(p.vm, p.raw) else None
  }

  ghost predicate OffMethodLists(env: Env, p: SigningPayload, rules: seq<Rule>) {
    && (exists r :: r in rules && Covers(env, p, r))
    && !(Seen(env, p).Some? && Seen(env, p).value.methodSelector.Some?
         && exists r :: r in rules && Covers(env, p, r)
                        && Denotes(env, r.selectors, Seen(env, p).value.methodSelector.value))
  }

  // ------------------------------------------------------------ values and shapes

  /** The decoder sees a value, and it satisfies no bound as low as the text's number. */
  ghost predicate ValueAbove(env: Env, p: SigningPayload, text: string) {
    && Seen(env, p).Some? && Seen(env, p).value.value.Some? && env.u256(text).Some?
    && env.u256(text).value < Seen(env, p).value.value.value
  }

  ghost predicate AboveCap(env: Env, p: SigningPayload, rules: seq<Rule>) {
    && p.VmTransaction?
    && exists r :: r in rules && r.ValueCap? && r.chainId == p.chainId && ValueAbove(env, p, r.maxValue)
  }

  ghost predicate BreaksShape(env: Env, p: SigningPayload, r: Rule) {
    && p.VmTransaction? && r.VmShape? && r.vm == p.vm && Seen(env, p).Some?
    && var tx := Seen(env, p).value;
       || (r.maxValue'.Some? && ValueAbove(env, p, r.maxValue'.value))
       || (r.maxGas.Some? && tx.gasLimit.Some? && r.maxGas.value < tx.gasLimit.value)
       || (r.allowedSelectors.Some? && tx.methodSelector.Some?
           && !Denotes(env, r.allowedSelectors.value, tx.methodSelector.value))
  }

  // ------------------------------------------------------------ the calendar

  /** 2024-01-01T00:00:00Z, a Monday. */
  const A_MONDAY := 1704067200

  /** The second lies in this hour of this day of the week, counted from Monday. */
  ghost predicate Falls(secs: int, day: nat, hour: nat) {
    exists week: int :: 0 <= secs - HourStart(week, day, hour) < 3600
  }

  function HourStart(week: int, day: nat, hour: nat): int {
    A_MONDAY + ((7 * week + day) * 24 + hour) * 3600
  }

  /** The whole second of an instant: the part after the point is dropped, before the epoch too. */
  ghost predicate WholeSecond(unixMs: int, secs: int) {
    if unixMs >= 0 then 1000 * secs <= unixMs < 1000 * secs + 1000 else 1000 * secs - 1000 < unixMs <= 1000 * secs
  }

  /** A byte as eight flags, the first one worth 1. */
  function Weigh(flags: seq<bool>): nat {
    if flags == [] then 0 else (if flags[0] then 1 else 0) + 2 * Weigh(flags[1..])
  }

  ghost predicate DayEnabled(mask: byte, day: nat) {
    exists flags :: |flags| == 8 && Weigh(flags) == mask && day < 8 && flags[day]
  }

  /** From `start` up to `end`; past midnight when the end does not come after the start. */
  predicate HourOpen(hour: nat, start: byte, end: byte) {
    if start < end then start <= hour < end else !(end <= hour < start)
  }

  ghost predicate InHours(unixMs: int, mask: byte, start: byte, end: byte) {
    exists secs, day, hour ::
      && WholeSecond(unixMs, secs) && Falls(secs, day, hour) && day < 7 && hour < 24
      && -377705116800 <= secs <= 253402300799
      && DayEnabled(mask, day) && HourOpen(hour, start, end)
  }

  lemma CalendarExactly(secs: int, day: nat, hour: nat)
    requires day < 7 && hour < 24
    ensures Falls(secs, day, hour) <==> WeekdayIndex(secs) == day && HourOf(secs) == hour
  {
    if Falls(secs, day, hour) {
      var week: int :| 0 <= secs - HourStart(week, day, hour) < 3600;
      var s := secs - HourStart(week, day, hour);
      var q := 19723 + 7 * week + day;
      assert secs == 86400 * q + (hour * 3600 + s);
      assert secs / 86400 == q && secs % 86400 == hour * 3600 + s;
      assert (q + 3) == 7 * (2818 + week) + day;
    }
    if WeekdayIndex(secs) == day && HourOf(secs) == hour {
      var q := secs / 86400;
      var week, s := (q + 3) / 7 - 2818, secs % 86400 - hour * 3600;
      assert q + 3 == 7 * ((q + 3) / 7) + day;
      assert secs == HourStart(week, day, hour) + s;
    }
  }

  lemma WholeSecondExactly(unixMs: int, secs: int)
    ensures WholeSecond(unixMs, secs) <==> secs == TruncDiv(unixMs, 1000)
  {
  }

  function Bit(b: bool): nat { if b then 1 else 0 }

  lemma WeighEight(flags: seq<bool>, day: nat)
    requires |flags| == 8 && day < 7 && Weigh(flags) < 256
    ensures BitSet(Weigh(flags), day) <==> flags[day]
  {
    hide BitSet, Weigh;
    if day < 4 { WeighLow(flags, day); } else { WeighHigh(flags, day); }
  }

  lemma WeighLow(flags: seq<bool>, day: nat)
    requires |flags| == 8 && day < 4 && Weigh(flags) < 256
    ensures BitSet(Weigh(flags), day) <==> flags[day]
  {
    var w, b := Weigh(flags), seq(8, i requires 0 <= i < 8 => Bit(flags[i]));
    WeighUnrolled(flags);
    hide Weigh;
    var e := b[4] + 2 * (b[5] + 2 * (b[6] + 2 * b[7]));
    match day
    case 0 => assert w == b[0] + 2 * (b[1] + 2 * (b[2] + 2 * (b[3] + 2 * e)));
    case 1 => assert w / 2 == b[1] + 2 * (b[2] + 2 * (b[3] + 2 * e));
    case 2 => assert w / 4 == b[2] + 2 * (b[3] + 2 * e);
    case 3 => assert w / 8 == b[3] + 2 * e;
  }

  lemma WeighHigh(flags: seq<bool>, day: nat)
    requires |flags| == 8 && 4 <= day < 7 && Weigh(flags) < 256
    ensures BitSet(Weigh(flags), day) <==> flags[day]
  {
    var w, b := Weigh(flags), seq(8, i requires 0 <= i < 8 => Bit(flags[i]));
    WeighUnrolled(flags);
    hide Weigh;
    match day
    case 4 => assert w / 16 == b[4] + 2 * (b[5] + 2 * (b[6] + 2 * b[7]));
    case 5 => assert w / 32 == b[5] + 2 * (b[6] + 2 * b[7]);
    case 6 => assert w / 64 == b[6] + 2 * b[7];
  }

  lemma WeighUnrolled(flags: seq<bool>)
    requires |flags| == 8
    ensures Weigh(flags)
            == Bit(flags[0]) + 2 * Bit(flags[1]) + 4 * Bit(flags[2]) + 8 * Bit(flags[3]) + 16 * Bit(flags[4])
               + 32 * Bit(flags[5]) + 64 * Bit(flags[6]) + 128 * Bit(flags[7])
  {
    WeighFrom(flags, 7);
    WeighFrom(flags, 6);
    WeighFrom(flags, 5);
    WeighFrom(flags, 4);
    WeighFrom(flags, 3);
    WeighFrom(flags, 2);
    WeighFrom(flags, 1);
    WeighFrom(flags, 0);
    assert flags[0..] == flags && flags[8..] == [];
  }

  lemma WeighFrom(flags: seq<bool>, k: nat)
    requires k < |flags|
    ensures Weigh(flags[k..]) == Bit(flags[k]) + 2 * Weigh(flags[k + 1..])
  {
    assert flags[k..][1..] == flags[k + 1..];
  }

  function Pow2(k: nat): nat { if k == 0 then 1 else 2 * Pow2(k - 1) }

  /** The flags of a number below 2^k. */
  function FlagsOf(n: nat, k: nat): (flags: seq<bool>)
    requires n < Pow2(k)
    ensures |flags| == k && Weigh(flags) == n
  {
    if k == 0 then []
    else
      var rest := FlagsOf(n / 2, k - 1);
      assert ([n % 2 == 1] + rest)[1..] == rest;
      [n % 2 == 1] + rest
  }

  lemma DayEnabledExactly(mask: byte, day: nat)
    requires day < 7
    ensures DayEnabled(mask, day) <==> BitSet(mask, day)
  {
    hide BitSet, Weigh;
    if DayEnabled(mask, day) {
      var flags :| |flags| == 8 && Weigh(flags) == mask && flags[day];
      WeighEight(flags, day);
    }
    if BitSet(mask, day) {
      assert Pow2(8) == 256 by { assert Pow2(4) == 16; }
      var flags := FlagsOf(mask, 8);
      WeighEight(flags, day);
    }
  }

  lemma InHoursExactly(unixMs: int, mask: byte, start: byte, end: byte)
    ensures InHours(unixMs, mask, start, end) <==> TimeWindowContains(unixMs, mask, start, end)
  {
    hide Falls, WholeSecond, DayEnabled, BitSet, WeekdayIndex, HourOf, TruncDiv;
    if InHours(unixMs, mask, start, end) {
      var secs, day, hour :|
        && WholeSecond(unixMs, secs) && Falls(secs, day, hour) && day < 7 && hour < 24
        && -377705116800 <= secs <= 253402300799
        && DayEnabled(mask, day) && HourOpen(hour, start, end);
      WholeSecondExactly(unixMs, secs);
      CalendarExactly(secs, day, hour);
      DayEnabledExactly(mask, day);
    }
    if TimeWindowContains(unixMs, mask, start, end) {
      var secs := TruncDiv(unixMs, 1000);
      var day, hour := WeekdayIndex(secs), HourOf(secs);
      WholeSecondExactly(unixMs, secs);
      CalendarExactly(secs, day, hour);
      DayEnabledExactly(mask, day);
    }
  }

  /** For hours a rule may name: the window is walked hour by hour from its start, around midnight, to its end. */
  lemma HourWalk(hour: nat, start: byte, end: byte)
    requires hour < 24 && start <= 23 && end <= 24
    ensures HourOpen(hour, start, end)
            <==> exists k: nat :: k < (if start < end then end else end + 24) - start && HourAfter(start, k) == hour
  {
    var length := (if start < end then end else end + 24) - start;
    var k := if hour >= start then hour - start else hour + 24 - start;
    assert HourAfter(start, k) == hour;
    if k': nat :| k' < length && HourAfter(start, k') == hour {
      assert k' == k || k' == k + 24 || k' == k - 24;
    }
  }

  function HourAfter(start: nat, k: nat): nat {
    (start + k) % 24
  }

  // ------------------------------------------------------------ time windows, quorum triggers, the limiter

  ghost predicate OutsideHours(request: SigningRequest, rules: seq<Rule>) {
    exists r :: r in rules && r.TimeWindow? && !InHours(request.receivedAtUnixMs, r.mask, r.start, r.end)
  }

  /** The quorum rule asks for approvers: always, from a value on, or outside its hours. */
  ghost predicate AsksQuorum(env: Env, request: SigningRequest, r: Rule) {
    && r.RequireQuorum?
    && match r.trigger
       case Always => true
       case ValueGte(chainId, text) =>
         && request.payload.VmTransaction? && request.payload.chainId == chainId
         && Seen(env, request.payload).Some? && Seen(env, request.payload).value.value.Some? && env.u256(text).Some?
         && !(Seen(env, request.payload).value.value.value < env.u256(text).value)
       case OutsideTimeWindow(mask, start, end) => !InHours(request.receivedAtUnixMs, mask, start, end)
  }

  /** One limiter call per rate-limit rule, in list order, on the bucket its scope names. */
  function LimiterCalls(env: Env, request: SigningRequest, clock: Clock, rules: seq<Rule>): seq<Call> {
    if rules == [] then []
    else
      var rest := LimiterCalls(env, request, clock, rules[1..]);
      match rules[0]
      case RateLimit(tokens, refill, scope) =>
        [Call(BucketName(env, request, scope), tokens, refill, clock(rules[0]))] + rest
      case _ => rest
  }

  /** "wallet:" and the wallet, "req:" and the requester, or "wr:" and both with a bar between. */
  function BucketName(env: Env, request: SigningRequest, scope: Scope): Bytes {
    var requester := env.requesterKey(request.requester);
    match scope
    case PerWallet => AsciiOf("wallet:") + request.walletId
    case PerRequester => AsciiOf("req:") + requester
    case PerWalletRequester => AsciiOf("wr:") + request.walletId + AsciiOf("|") + requester
  }

  /** Some limiter call is refused after all those before it. */
  ghost predicate Limited(m: Buckets, calls: seq<Call>) {
    exists i: nat :: i < |calls| && Refused(m, calls, i)
  }

  ghost predicate Refused(m: Buckets, calls: seq<Call>, i: nat)
    requires i < |calls|
  {
    !Acquire(After(m, calls[..i]), calls[i]).0
  }

  lemma BucketNameIsKey(env: Env, request: SigningRequest, scope: Scope)
    ensures BucketName(env, request, scope) == RateLimitKey(env, scope, request)
  {
    assert AsciiOf("wallet:") == WALLET_TAG;
    assert AsciiOf("req:") == REQUESTER_TAG;
    assert AsciiOf("wr:") == BOTH_TAG;
    assert AsciiOf("|") == [0x7c];
  }

  lemma LimitedCons(m: Buckets, call: Call, calls: seq<Call>)
    ensures Limited(m, [call] + calls) <==> !Acquire(m, call).0 || Limited(Acquire(m, call).1, calls)
  {
    hide Acquire;
    var all, next := [call] + calls, Acquire(m, call).1;
    assert all[..0] == [];
    forall i: nat | i < |calls| ensures Refused(m, all, i + 1) <==> Refused(next, calls, i) {
      assert all[..i + 1] == [call] + calls[..i];
      assert ([call] + calls[..i])[1..] == calls[..i];
    }
    if Limited(next, calls) {
      var i: nat :| i < |calls| && Refused(next, calls, i);
      assert Refused(m, all, i + 1);
    }
    if !Acquire(m, call).0 { assert Refused(m, all, 0); }
    if Limited(m, all) {
      var i: nat :| i < |all| && Refused(m, all, i);
      if i > 0 { assert Refused(next, calls, i - 1); }
    }
  }

  lemma {:induction false} LimitedExactly(env: Env, request: SigningRequest, clock: Clock, rules: seq<Rule>, m: Buckets)
    ensures Limited(m, LimiterCalls(env, request, clock, rules)) <==> !RateScan(env, request, clock, rules, m).0
    decreases |rules|
  {
    hide Acquire, Limited, BucketName, RateLimitKey;
    if rules == [] {
      assert !Limited(m, []) by { NoneLimited(m); }
    } else if !rules[0].RateLimit? {
      LimitedExactly(env, request, clock, rules[1..], m);
    } else {
      var call := CallFor(env, request, clock, rules[0]);
      BucketNameIsKey(env, request, rules[0].scope);
      LimitedCons(m, call, LimiterCalls(env, request, clock, rules[1..]));
      LimitedExactly(env, request, clock, rules[1..], Acquire(m, call).1);
    }
  }

  /** What the limiter gate leaves behind: the calls up to and including the first refusal, or all of them. */
  lemma {:induction false} LimiterAfter(env: Env, request: SigningRequest, clock: Clock, rules: seq<Rule>, m: Buckets)
    returns (n: nat)
    ensures var calls, scan := LimiterCalls(env, request, clock, rules), RateScan(env, request, clock, rules, m);
            && n <= |calls| && scan.1 == After(m, calls[..n])
            && (scan.0 ==> n == |calls|) && (!scan.0 ==> n > 0 && Refused(m, calls, n - 1))
            && forall i: nat :: i < n - 1 ==> !Refused(m, calls, i)
    decreases |rules|
  {
    hide Acquire, BucketName, RateLimitKey;
    if rules == [] {
      n := 0;
    } else if !rules[0].RateLimit? {
      n := LimiterAfter(env, request, clock, rules[1..], m);
    } else {
      var call, rest := CallFor(env, request, clock, rules[0]), LimiterCalls(env, request, clock, rules[1..]);
      BucketNameIsKey(env, request, rules[0].scope);
      var calls, next := [call] + rest, Acquire(m, call).1;
      assert calls == LimiterCalls(env, request, clock, rules);
      assert calls[..0] == [] && calls[..1] == [call] && [call][1..] == [];
      assert After(m, [call]) == next by { assert After(next, []) == next; }
      if Acquire(m, call).0 {
        var k := LimiterAfter(env, request, clock, rules[1..], next);
        n := k + 1;
        forall i: nat | i <= |rest| ensures After(m, calls[..i + 1]) == After(next, rest[..i]) {
          assert calls[..i + 1] == [call] + rest[..i] && ([call] + rest[..i])[1..] == rest[..i];
        }
        forall i: nat | i < |rest| ensures Refused(m, calls, i + 1) <==> Refused(next, rest, i) {
        }
        forall i: nat | i < n - 1 ensures !Refused(m, calls, i) {
          if i > 0 { assert Refused(m, calls, i) <==> Refused(next, rest, i - 1); }
        }
      } else {
        n := 1;
      }
    }
  }

  lemma NoneLimited(m: Buckets)
    ensures !Limited(m, [])
  {
  }

  // ------------------------------------------------------------ the decision

  /** The first gate that objects, in the fixed order, gives the reason. */
  ghost function Reading(env: Env, request: SigningRequest, rs: RuleSet, clock: Clock, m: Buckets): Summary {
    var p, rules := request.payload, rs.rules;
    if OnDeniedChain(p, rules) then DeniedFor(ChainDenied)
    else if ToDeniedContract(env, p, rules) then DeniedFor(Other("contract denied"))
    else if OffChainLists(p, rules) then DeniedFor(ChainNotAllowed)
    else if OffContractLists(env, p, rules) then DeniedFor(Other("contract not on allow list"))
    else if OffMethodLists(env, p, rules) then DeniedFor(Other("method not allowed"))
    else if AboveCap(env, p, rules) then DeniedFor(Other("value cap exceeded"))
    else if OutsideHours(request, rules) then DeniedFor(Other("outside time window"))
    else if Limited(m, LimiterCalls(env, request, clock, rules)) then DeniedFor(Other("rate limited"))
    else if exists r :: r in rules && BreaksShape(env, p, r) then DeniedFor(Other("vm-shape constraint"))
    else if exists r :: r in rules && AsksQuorum(env, request, r) then NeedsQuorum
    else if rs.defaultAllow then Allowed
    else DeniedFor(Other("policy default"))
  }

  lemma DenotesAddress(env: Env, texts: seq<string>, b: Bytes)
    ensures Denotes(env, texts, b) <==> AddressIn(env, texts, b)
    ensures Denotes(env, texts, b) <==> SelectorIn(env, texts, b)
  {
  }

  lemma DenyGates(env: Env, request: SigningRequest, rules: seq<Rule>)
    ensures OnDeniedChain(request.payload, rules) <==> Blocked(env, request, ChainGate, rules)
    ensures ToDeniedContract(env, request.payload, rules) <==> Blocked(env, request, ContractGate, rules)
  {
    hide Denotes, AddressIn;
    var p := request.payload;
    if p.VmTransaction? && p.to.Some? {
      forall texts: seq<string> ensures Denotes(env, texts, p.to.value) <==> AddressIn(env, texts, p.to.value) {
        DenotesAddress(env, texts, p.to.value);
      }
    }
  }

  lemma ChainFilter(request: SigningRequest, rules: seq<Rule>)
    ensures OffChainLists(request.payload, rules) <==> ChainListed(rules) && !ChainAllowed(request, rules)
  {
  }

  lemma ContractFilter(env: Env, request: SigningRequest, rules: seq<Rule>)
    ensures OffContractLists(env, request.payload, rules)
            <==> ContractListed(request, rules) && !ContractAllowed(env, request, rules)
  {
    hide Denotes, AddressIn;
    var p := request.payload;
    if p.VmTransaction? && p.to.Some? {
      forall texts: seq<string> ensures Denotes(env, texts, p.to.value) <==> AddressIn(env, texts, p.to.value) {
        DenotesAddress(env, texts, p.to.value);
      }
    }
  }

  lemma CoversExactly(env: Env, request: SigningRequest, r: Rule)
    ensures Covers(env, request.payload, r) <==> MethodApplies(env, request, r)
  {
  }

  lemma MethodFilter(env: Env, request: SigningRequest, rules: seq<Rule>)
    ensures OffMethodLists(env, request.payload, rules)
            <==> MethodListed(env, request, rules) && !MethodAllowed(env, request, rules)
  {
    hide Denotes, SelectorIn, Covers, MethodApplies;
    var p := request.payload;
    forall r: Rule ensures Covers(env, p, r) <==> MethodApplies(env, request, r) {
      CoversExactly(env, request, r);
    }
    forall r: Rule | Covers(env, p, r) ensures r.AllowMethod? {
      CoversMethod(env, p, r);
    }
    if DecodedSelector(env, request).Some? {
      var selector := DecodedSelector(env, request).value;
      forall texts: seq<string> ensures Denotes(env, texts, selector) <==> SelectorIn(env, texts, selector) {
        DenotesAddress(env, texts, selector);
      }
    }
  }

  lemma CoversMethod(env: Env, p: SigningPayload, r: Rule)
    requires Covers(env, p, r)
    ensures r.AllowMethod?
  {
  }

  lemma CapFilter(env: Env, request: SigningRequest, rules: seq<Rule>)
    ensures AboveCap(env, request.payload, rules) <==> Blocked(env, request, CapGate, rules)
  {
  }

  lemma HoursFilter(env: Env, request: SigningRequest, rules: seq<Rule>)
    ensures OutsideHours(request, rules) <==> Blocked(env, request, WindowGate, rules)
  {
    hide InHours, TimeWindowContains;
    forall mask: byte, start: byte, end: byte
      ensures InHours(request.receivedAtUnixMs, mask, start, end)
              <==> TimeWindowContains(request.receivedAtUnixMs, mask, start, end)
    {
      InHoursExactly(request.receivedAtUnixMs, mask, start, end);
    }
  }

  lemma ShapeExactly(env: Env, request: SigningRequest, r: Rule)
    requires RuleOk(env, r)
    ensures BreaksShape(env, request.payload, r) <==> Check(env, request, ShapeGate, r).Fail?
  {
    hide Denotes, SelectorIn;
    if r.VmShape? && r.allowedSelectors.Some? && DecodedSelector(env, request).Some? {
      DenotesAddress(env, r.allowedSelectors.value, DecodedSelector(env, request).value);
    }
  }

  lemma AsksExactly(env: Env, request: SigningRequest, r: Rule)
    requires RuleOk(env, r)
    ensures AsksQuorum(env, request, r) <==> r.RequireQuorum? && Fires(env, request, r.trigger).Fail?
  {
    hide InHours, TimeWindowContains;
    if r.RequireQuorum? && r.trigger.OutsideTimeWindow? {
      InHoursExactly(request.receivedAtUnixMs, r.trigger.mask, r.trigger.start, r.trigger.end);
    }
  }

  ghost predicate AllOk(env: Env, rules: seq<Rule>) {
    forall r :: r in rules ==> RuleOk(env, r)
  }

  lemma LateGates(env: Env, request: SigningRequest, rules: seq<Rule>)
    requires AllOk(env, rules)
    ensures (exists r :: r in rules && BreaksShape(env, request.payload, r))
            <==> Blocked(env, request, ShapeGate, rules)
    ensures (exists r :: r in rules && AsksQuorum(env, request, r)) <==> QuorumWanted(env, request, rules)
  {
    hide BreaksShape, AsksQuorum, Check, Fires, RuleOk;
    forall r | r in rules
      ensures BreaksShape(env, request.payload, r) <==> Check(env, request, ShapeGate, r).Fail?
      ensures AsksQuorum(env, request, r) <==> r.RequireQuorum? && Fires(env, request, r.trigger).Fail?
    {
      ShapeExactly(env, request, r);
      AsksExactly(env, request, r);
    }
  }

  /** A validated rule set decides as its rules and the payload read, gate by gate. */
  lemma DecidesByFields(env: Env, request: SigningRequest, rs: RuleSet, clock: Clock, m: Buckets)
    requires Validated(env, rs)
    ensures var outcome := Evaluated(env, request, rs, clock, m).0;
            outcome.Decided? && Summarize(outcome.decision) == Reading(env, request, rs, clock, m)
  {
    hide Evaluated, RateScan, Front, RuleOk, Blocked, QuorumWanted, Limited, LimiterCalls, BreaksShape, AsksQuorum;
    hide ChainListed, ChainAllowed, ContractListed, ContractAllowed, MethodListed, MethodAllowed;
    hide OnDeniedChain, ToDeniedContract, OffChainLists, OffContractLists, OffMethodLists, AboveCap, OutsideHours;
    EvaluateRefines(env, request, rs, clock, m);
    DenyGates(env, request, rs.rules);
    ChainFilter(request, rs.rules);
    ContractFilter(env, request, rs.rules);
    MethodFilter(env, request, rs.rules);
    CapFilter(env, request, rs.rules);
    HoursFilter(env, request, rs.rules);
    LimitedExactly(env, request, clock, rs.rules, m);
    LateGates(env, request, rs.rules);
  }

  /** No gate objects and no quorum is asked for. */
  ghost predicate Unopposed(env: Env, request: SigningRequest, rules: seq<Rule>, clock: Clock, m: Buckets) {
    var p := request.payload;
    && !OnDeniedChain(p, rules) && !ToDeniedContract(env, p, rules)
    && !OffChainLists(p, rules) && !OffContractLists(env, p, rules) && !OffMethodLists(env, p, rules)
    && !AboveCap(env, p, rules) && !OutsideHours(request, rules)
    && !Limited(m, LimiterCalls(env, request, clock, rules))
    && forall r :: r in rules ==> !BreaksShape(env, p, r) && !AsksQuorum(env, request, r)
  }

  /**
   A validated rule set allows a request if and only if no gate objects and the default
   is to allow. It denies for the chain if and only if a deny rule lists the chain.
   */
  lemma AllowedExactly(env: Env, request: SigningRequest, rs: RuleSet, clock: Clock, m: Buckets)
    requires Validated(env, rs)
    ensures var d, p := Evaluated(env, request, rs, clock, m).0, request.payload;
            && d.Decided?
            && (d.decision.Allow? <==> Unopposed(env, request, rs.rules, clock, m) && rs.defaultAllow)
            && (d.decision.Deny? && d.decision.reason == ChainDenied
                <==> p.VmTransaction? && exists r :: r in rs.rules && r.DenyChain? && p.chainId in r.chainIds)
  {
    hide Evaluated, Validated, Limited, LimiterCalls, BreaksShape, AsksQuorum;
    hide ToDeniedContract, OffChainLists, OffContractLists, OffMethodLists, AboveCap, OutsideHours;
    DecidesByFields(env, request, rs, clock, m);
  }

  // ------------------------------------------------------------ transactions

  /** The EVM decoder as the evaluator is wired with it: value, gas limit and selector, and nothing for other VMs. */
  function EvmView(vm: VmType, raw: Bytes): Option<DecodedTx> {
    var tx := Evm.DecodeEvmTx(raw);
    if !vm.Evm? || tx.Err? then None
    else Some(DecodedTx(Some(tx.value.value), Some(tx.value.gasLimit), tx.value.methodSelector))
  }

  ghost predicate DecodesEvm(env: Env) {
    forall vm, raw :: env.decoder(vm, raw) == EvmView(vm, raw)
  }

  lemma SeenTransaction(env: Env, p: SigningPayload, e: Evm.Envelope)
    requires DecodesEvm(env) && p.VmTransaction? && p.vm.Evm? && Evm.WellFormed(e) && p.raw == Evm.Encode(e)
    ensures Seen(env, p)
            == Some(DecodedTx(Some(e.value), Some(e.gasLimit), if |e.data| >= 4 then Some(e.data[..4]) else None))
  {
    hide Evm.WellFormed, Evm.Encode, Evm.DecodeEvmTx;
    Evm.TransactionReadBack(e);
  }

  /** The limits of a rule list on a transaction of the payload's chain, in the transaction's own fields. */
  ghost predicate WithinLimits(env: Env, p: SigningPayload, rules: seq<Rule>, e: Evm.Envelope)
    requires p.VmTransaction?
  {
    forall r :: r in rules ==>
                  && (r.ValueCap? && r.chainId == p.chainId && env.u256(r.maxValue).Some? ==>
                        e.value <= env.u256(r.maxValue).value)
                  && (r.VmShape? && r.vm.Evm? ==>
                        && (r.maxValue'.Some? && env.u256(r.maxValue'.value).Some? ==>
                              e.value <= env.u256(r.maxValue'.value).value)
                        && (r.maxGas.Some? ==> e.gasLimit <= r.maxGas.value)
                        && (r.allowedSelectors.Some? && |e.data| >= 4 ==>
                              Denotes(env, r.allowedSelectors.value, e.data[..4])))
                  && (Covers(env, p, r) ==>
                        && |e.data| >= 4
                        && exists q :: q in rules && Covers(env, p, q) && q.AllowMethod?
                                       && Denotes(env, q.selectors, e.data[..4]))
  }

  /** With the EVM decoder wired, an allowed transaction keeps every limit of the rule list on its bytes. */
  lemma AllowedTransaction(env: Env, request: SigningRequest, rs: RuleSet, clock: Clock, m: Buckets, e: Evm.Envelope)
    requires Validated(env, rs) && DecodesEvm(env)
    requires request.payload.VmTransaction? && request.payload.vm.Evm?
    requires Evm.WellFormed(e) && request.payload.raw == Evm.Encode(e)
    requires Evaluated(env, request, rs, clock, m).0.Decided?
    requires Evaluated(env, request, rs, clock, m).0.decision.Allow?
    ensures WithinLimits(env, request.payload, rs.rules, e)
  {
    hide Evaluated, Validated, Limited, LimiterCalls, AsksQuorum, OnDeniedChain, DecodesEvm, Denotes;
    hide ToDeniedContract, OffChainLists, OffContractLists, OutsideHours, Evm.WellFormed, Evm.Encode;
    AllowedExactly(env, request, rs, clock, m);
    SeenTransaction(env, request.payload, e);
    forall r | r in rs.rules ensures !BreaksShape(env, request.payload, r) {
    }
    forall r | r in rs.rules && Covers(env, request.payload, r)
      ensures |e.data| >= 4
      ensures exists q :: q in rs.rules && Covers(env, request.payload, q) && q.AllowMethod?
                          && Denotes(env, q.selectors, e.data[..4])
    {
      assert !OffMethodLists(env, request.payload, rs.rules);
    }
  }

  // ------------------------------------------------------------ the terms of a quorum

  lemma {:induction false} FirstAsking(env: Env, request: SigningRequest, rules: seq<Rule>) returns (i: nat)
    requires QuorumScan(env, request, rules).FiredRule? && AllOk(env, rules)
    ensures i < |rules| && rules[i] == QuorumScan(env, request, rules).rule && AsksQuorum(env, request, rules[i])
    ensures forall j :: 0 <= j < i ==> !AsksQuorum(env, request, rules[j])
  {
    hide Fires, AsksQuorum, RuleOk;
    AsksExactly(env, request, rules[0]);
    if rules[0].RequireQuorum? && Fires(env, request, rules[0].trigger).Fail? {
      i := 0;
    } else {
      var k := FirstAsking(env, request, rules[1..]);
      i := k + 1;
      forall j | 0 <= j < i ensures !AsksQuorum(env, request, rules[j]) {
        if j > 0 { assert !AsksQuorum(env, request, rules[1..][j - 1]); }
      }
    }
  }

  /** A quorum decision carries threshold, total and approvers of the first rule that asks for one. */
  lemma QuorumByFields(env: Env, request: SigningRequest, rs: RuleSet, clock: Clock, m: Buckets) returns (i: nat)
    requires Validated(env, rs) && Evaluated(env, request, rs, clock, m).0.Decided?
    requires Evaluated(env, request, rs, clock, m).0.decision.Quorum?
    ensures i < |rs.rules| && AsksQuorum(env, request, rs.rules[i]) && rs.rules[i].RequireQuorum?
    ensures forall j :: 0 <= j < i ==> !AsksQuorum(env, request, rs.rules[j])
    ensures var d := Evaluated(env, request, rs, clock, m).0.decision;
            && d.threshold == rs.rules[i].threshold && d.total == rs.rules[i].total
            && d.approverSet == rs.rules[i].approverSet
  {
    hide Evaluated, QuorumScan, RuleOk, AsksQuorum;
    QuorumIsFirstFiring(env, request, rs, clock, m);
    i := FirstAsking(env, request, rs.rules);
    var r := rs.rules[i];
    assert Demands(r, (r.threshold, r.total, r.approverSet));
  }

  // ------------------------------------------------------------ the rationale

  /** The allow filters that apply to a payload leave one hit each, in gate order. */
  ghost function FilterHits(env: Env, p: SigningPayload, rules: seq<Rule>, gates: nat): seq<RuleHit> {
    (if gates > 3 && (exists r :: r in rules && r.AllowChain?)
     then [RuleHit("allow-chain-filter", AllowEffect)] else [])
    + (if gates > 4 && p.VmTransaction? && (exists r :: r in rules && r.AllowContract? && r.chainId == p.chainId)
       then [RuleHit("allow-contract-filter", AllowEffect)] else [])
    + (if gates > 5 && (exists r :: r in rules && Covers(env, p, r))
       then [RuleHit("allow-method-filter", AllowEffect)] else [])
  }

  /** The gate that decided, counted from one, and the hit it leaves. */
  ghost predicate DecidedAt(d: Decision, gate: nat, hit: RuleHit) {
    match d
    case Allow(_) => gate == 11 && hit == RuleHit("default-allow", AllowEffect)
    case Quorum(_, _, _, _) => gate == 10 && hit == RuleHit("require-quorum", QuorumEffect)
    case Deny(reason, _) =>
      && hit.effect == DenyEffect
      && match gate
         case 1 => reason == ChainDenied && hit.ruleId == "deny-chain"
         case 2 => reason == Other("contract denied") && hit.ruleId == "deny-contract"
         case 3 => reason == ChainNotAllowed && hit.ruleId == "allow-chain-filter"
         case 4 => reason == Other("contract not on allow list") && hit.ruleId == "allow-contract-filter"
         case 5 => reason == Other("method not allowed") && hit.ruleId == "allow-method-filter"
         case 6 => reason == Other("value cap exceeded") && hit.ruleId == "value-cap"
         case 7 => reason == Other("outside time window") && hit.ruleId == "time-window"
         case 8 => reason == Other("rate limited") && hit.ruleId == "rate-limit"
         case 9 => reason == Other("vm-shape constraint")
         case 11 => reason == Other("policy default") && hit.ruleId == "default-deny"
         case _ => false
  }

  lemma HitsByFields(env: Env, request: SigningRequest, rules: seq<Rule>)
    ensures forall g: nat :: g <= 3 ==> FilterHits(env, request.payload, rules, g) == []
    ensures FilterHits(env, request.payload, rules, 4) == HitsAfter3(rules)
    ensures FilterHits(env, request.payload, rules, 5) == HitsAfter4(request, rules)
    ensures forall g: nat :: g > 5 ==> FilterHits(env, request.payload, rules, g) == HitsAfter5(env, request, rules)
  {
    hide Covers, MethodApplies;
    forall r: Rule ensures Covers(env, request.payload, r) <==> MethodApplies(env, request, r) {
      CoversExactly(env, request, r);
    }
  }

  lemma {:induction false} CapId(env: Env, request: SigningRequest, rules: seq<Rule>)
    requires Scan(env, request, CapGate, rules).Fail?
    ensures Scan(env, request, CapGate, rules).ruleId == "value-cap"
  {
    if Check(env, request, CapGate, rules[0]) == Pass { CapId(env, request, rules[1..]); }
  }

  /** The id a shape rule leaves: the first of its three limits that the payload breaks. */
  ghost predicate ShapeId(env: Env, p: SigningPayload, r: Rule, id: string) {
    && BreaksShape(env, p, r)
    && id == if r.maxValue'.Some? && ValueAbove(env, p, r.maxValue'.value) then "vm-shape-max-value"
             else if r.maxGas.Some? && Seen(env, p).value.gasLimit.Some?
                     && r.maxGas.value < Seen(env, p).value.gasLimit.value then "vm-shape-max-gas"
             else "vm-shape-method"
  }

  lemma ShapeIdExactly(env: Env, request: SigningRequest, r: Rule)
    requires RuleOk(env, r) && Check(env, request, ShapeGate, r).Fail?
    ensures ShapeId(env, request.payload, r, Check(env, request, ShapeGate, r).ruleId)
  {
    hide BreaksShape, Denotes, SelectorIn;
    ShapeExactly(env, request, r);
    BreaksFields(env, request.payload, r);
  }

  lemma BreaksFields(env: Env, p: SigningPayload, r: Rule)
    requires BreaksShape(env, p, r)
    ensures r.VmShape? && Seen(env, p).Some?
  {
  }

  /** A shape denial names the first rule, in list order, whose shape the payload breaks. */
  lemma {:induction false} FirstBreaking(env: Env, request: SigningRequest, rules: seq<Rule>) returns (i: nat)
    requires Scan(env, request, ShapeGate, rules).Fail? && AllOk(env, rules)
    ensures i < |rules| && ShapeId(env, request.payload, rules[i], Scan(env, request, ShapeGate, rules).ruleId)
    ensures forall j :: 0 <= j < i ==> !BreaksShape(env, request.payload, rules[j])
  {
    hide Check, ShapeId, BreaksShape, RuleOk;
    ValidNeverBroken(env, request, ShapeGate, rules[0]);
    ShapeExactly(env, request, rules[0]);
    if Check(env, request, ShapeGate, rules[0]).Fail? {
      ShapeIdExactly(env, request, rules[0]);
      i := 0;
    } else {
      var k := FirstBreaking(env, request, rules[1..]);
      i := k + 1;
      forall j | 0 <= j < i ensures !BreaksShape(env, request.payload, rules[j]) {
        if j > 0 { assert !BreaksShape(env, request.payload, rules[1..][j - 1]); }
      }
    }
  }

  /** The hit of a shape denial is that of the first rule whose shape is broken. */
  ghost predicate FirstShape(env: Env, p: SigningPayload, rules: seq<Rule>, id: string) {
    exists i: nat ::
      && i < |rules| && ShapeId(env, p, rules[i], id)
      && forall j :: 0 <= j < i ==> !BreaksShape(env, p, rules[j])
  }

  /** The outcome was decided at this gate, and its rationale says so. */
  ghost predicate Explained(env: Env, p: SigningPayload, rules: seq<Rule>, o: Outcome, gate: nat, hit: RuleHit) {
    && o.Decided? && DecidedAt(o.decision, gate, hit)
    && o.decision.rationale == FilterHits(env, p, rules, gate) + [hit]
    && (gate == 9 ==> FirstShape(env, p, rules, hit.ruleId))
  }

  lemma FrontExplained(env: Env, request: SigningRequest, rules: seq<Rule>) returns (gate: nat, hit: RuleHit)
    requires Front(env, request, rules).Some? && AllOk(env, rules)
    ensures Explained(env, request.payload, rules, Front(env, request, rules).value, gate, hit)
  {
    hide Scan, RuleOk, FilterHits, HitsAfter3, HitsAfter4, HitsAfter5;
    hide ChainListed, ChainAllowed, ContractListed, ContractAllowed, MethodListed, MethodAllowed;
    HitsByFields(env, request, rules);
    if Scan(env, request, ChainGate, rules) != Pass {
      return 1, RuleHit("deny-chain", DenyEffect);
    } else if Scan(env, request, ContractGate, rules) != Pass {
      return 2, RuleHit("deny-contract", DenyEffect);
    } else if ChainListed(rules) && !ChainAllowed(request, rules) {
      return 3, RuleHit("allow-chain-filter", DenyEffect);
    } else if ContractListed(request, rules) && !ContractAllowed(env, request, rules) {
      return 4, RuleHit("allow-contract-filter", DenyEffect);
    } else if MethodListed(env, request, rules) && !MethodAllowed(env, request, rules) {
      return 5, RuleHit("allow-method-filter", DenyEffect);
    }
    ScanIsBlocked(env, request, CapGate, rules);
    if Scan(env, request, CapGate, rules).Fail? {
      CapId(env, request, rules);
      return 6, RuleHit("value-cap", DenyEffect);
    }
    return 7, RuleHit("time-window", DenyEffect);
  }

  lemma BackExplained(env: Env, request: SigningRequest, rs: RuleSet) returns (gate: nat, hit: RuleHit)
    requires AllOk(env, rs.rules)
    ensures Explained(env, request.payload, rs.rules, Back(env, request, rs), gate, hit)
  {
    hide Scan, QuorumScan, RuleOk, FilterHits, HitsAfter3, HitsAfter4, HitsAfter5, ShapeId, BreaksShape;
    HitsByFields(env, request, rs.rules);
    ScanIsBlocked(env, request, ShapeGate, rs.rules);
    QuorumScanIsWanted(env, request, rs.rules);
    var shape := Scan(env, request, ShapeGate, rs.rules);
    if shape.Fail? {
      var i := FirstBreaking(env, request, rs.rules);
      return 9, RuleHit(shape.ruleId, DenyEffect);
    } else if QuorumScan(env, request, rs.rules).FiredRule? {
      return 10, RuleHit("require-quorum", QuorumEffect);
    } else if rs.defaultAllow {
      return 11, RuleHit("default-allow", AllowEffect);
    }
    return 11, RuleHit("default-deny", DenyEffect);
  }

  /**
   The rationale of a decision: one allow hit for each allow filter that was passed
   before the deciding gate, then that gate's own hit.
   */
  lemma RationaleExactly(env: Env, request: SigningRequest, rs: RuleSet, clock: Clock, m: Buckets)
    returns (gate: nat, hit: RuleHit)
    requires Validated(env, rs)
    ensures Explained(env, request.payload, rs.rules, Evaluated(env, request, rs, clock, m).0, gate, hit)
  {
    hide Front, Back, RateScan, RuleOk, FilterHits, HitsAfter5, FirstShape;
    if Front(env, request, rs.rules).Some? {
      gate, hit := FrontExplained(env, request, rs.rules);
    } else if !RateScan(env, request, clock, rs.rules, m).0 {
      HitsByFields(env, request, rs.rules);
      gate, hit := 8, RuleHit("rate-limit", DenyEffect);
    } else {
      gate, hit := BackExplained(env, request, rs);
    }
  }

  // ------------------------------------------------------------ validation

  /** What a rule must satisfy to be loaded, kind by kind. */
  ghost predicate Loadable(env: Env, r: Rule) {
    && (r.AllowContract? || r.DenyContract? ==> forall t :: t in r.addresses ==> env.hex(t).Some?)
    && (r.AllowMethod? ==> (r.contract.Some? ==> env.hex(r.contract.value).Some?) && FourBytesEach(env, r.selectors))
    && (r.ValueCap? ==> env.u256(r.maxValue).Some?)
    && (r.RateLimit? ==> r.tokens != 0)
    && (r.TimeWindow? ==> !DayEnabled(r.mask, 7) && r.start <= 23 && r.end <= 24)
    && (r.RequireQuorum? ==>
          && r.threshold != 0 && r.total != 0 && r.threshold <= r.total
          && (r.trigger.ValueGte? ==> env.u256(r.trigger.value).Some?))
    && (r.VmShape? ==>
          && (r.maxValue'.Some? ==> env.u256(r.maxValue'.value).Some?)
          && (r.allowedSelectors.Some? ==> FourBytesEach(env, r.allowedSelectors.value)))
  }

  ghost predicate FourBytesEach(env: Env, texts: seq<string>) {
    forall t :: t in texts ==> exists b :: env.hex(t) == Some(b) && |b| == 4
  }

  lemma EighthFlag(mask: byte)
    ensures DayEnabled(mask, 7) <==> mask >= 128
  {
    hide Weigh;
    if DayEnabled(mask, 7) {
      var flags :| |flags| == 8 && Weigh(flags) == mask && flags[7];
      WeighUnrolled(flags);
    }
    if mask >= 128 {
      assert Pow2(8) == 256 by { assert Pow2(4) == 16; }
      var flags := FlagsOf(mask, 8);
      WeighUnrolled(flags);
      assert flags[7];
    }
  }

  lemma LoadableExactly(env: Env, r: Rule)
    ensures Loadable(env, r) <==> RuleOk(env, r)
  {
    hide DayEnabled;
    if r.TimeWindow? { EighthFlag(r.mask); }
  }

  /** A rule set is accepted if and only if it is version 1 and every rule can be loaded. */
  lemma ValidatedByFields(env: Env, rs: RuleSet)
    ensures Validated(env, rs) <==> rs.version == 1 && forall r :: r in rs.rules ==> Loadable(env, r)
  {
    hide Loadable, RuleOk;
    forall r | r in rs.rules ensures Loadable(env, r) <==> RuleOk(env, r) {
      LoadableExactly(env, r);
    }
  }
}
