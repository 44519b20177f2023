/**
 Concurrent evaluations of one policy (crates/qfc-policy/src/rule_set_policy.rs) over
 one limiter (crates/qfc-policy/src/rate_limit.rs). Each limiter call is a lock section
 of its own and reads the clock before it takes the lock; between two calls of one
 evaluation any number of calls of others can run.
 */
module PolicyRuns {
  import opened Bytes
  import opened WalletTypes
  import opened RateLimit
  import opened RuleSetPolicy
  import opened PolicyLaws

  /** An evaluation at the limiter gate, before the rule at `pos`; or one that has returned. */
  datatype Proc =
    | Limiting(request: SigningRequest, pos: nat)
    | Returned(request: SigningRequest, pos: nat, outcome: Outcome)

  /** The evaluations begun, the limiter, and all limiter calls so far in lock order. */
  datatype State = State(limiter: Buckets, procs: map<nat, Proc>, calls: seq<Call>)

  datatype Action = Start(id: nat, request: SigningRequest) | Advance(id: nat, now: int)

  /** Gates 1 to 7 look at nothing shared. */
  function Launch(env: Env, rs: RuleSet, request: SigningRequest): Proc {
    var front := Front(env, request, rs.rules);
    if front.Some? then Returned(request, 0, front.value) else Limiting(request, 0)
  }

  function CallAt(env: Env, rs: RuleSet, p: Proc, now: int): Option<Call> {
    if p.pos < |rs.rules| && rs.rules[p.pos].RateLimit? then
      var r := rs.rules[p.pos];
      Some(Call(RateLimitKey(env, r.scope, p.request), r.tokens, r.refillPerSecs, now))
    else None
  }

  /** One step of an evaluation; `granted` is the limiter's answer when it makes a call. */
  function Stepped(env: Env, rs: RuleSet, p: Proc, granted: bool): Proc
    requires p.Limiting?
  {
    if p.pos >= |rs.rules| then Returned(p.request, p.pos, Back(env, p.request, rs))
    else if rs.rules[p.pos].RateLimit? && !granted then
      Returned(p.request, p.pos,
               Denied(Other("rate limited"), HitsAfter5(env, p.request, rs.rules), "rate-limit"))
    else Limiting(p.request, p.pos + 1)
  }

  predicate Enabled(s: State, a: Action) {
    match a
    case Start(id, _) => id !in s.procs
    case Advance(id, _) => id in s.procs && s.procs[id].Limiting?
  }

  function Next(env: Env, rs: RuleSet, s: State, a: Action): State
    requires Enabled(s, a)
  {
    match a
    case Start(id, request) => s.(procs := s.procs[id := Launch(env, rs, request)])
    case Advance(id, now) =>
      var p := s.procs[id];
      match CallAt(env, rs, p, now)
      case None => s.(procs := s.procs[id := Stepped(env, rs, p, true)])
      case Some(call) =>
        var (ok, next) := Acquire(s.limiter, call);
        State(next, s.procs[id := Stepped(env, rs, p, ok)], s.calls + [call])
  }

  ghost predicate Runs(env: Env, rs: RuleSet, s: State, actions: seq<Action>, t: State)
    decreases |actions|
  {
    if actions == [] then s == t
    else Enabled(s, actions[0]) && Runs(env, rs, Next(env, rs, s, actions[0]), actions[1..], t)
  }

  // ------------------------------------------------------------ one evaluation alone

  /** An evaluation that nothing interrupts, reading `clock` at each rule. */
  function Drive(env: Env, rs: RuleSet, p: Proc, clock: Clock, m: Buckets): (Outcome, Buckets)
    requires p.Limiting? ==> p.pos <= |rs.rules|
    decreases if p.Limiting? then |rs.rules| + 1 - p.pos else 0
  {
    if p.Returned? then (p.outcome, m)
    else
      var now := if p.pos < |rs.rules| then clock(rs.rules[p.pos]) else 0;
      match CallAt(env, rs, p, now)
      case None => Drive(env, rs, Stepped(env, rs, p, true), clock, m)
      case Some(call) =>
        var (ok, next) := Acquire(m, call);
        Drive(env, rs, Stepped(env, rs, p, ok), clock, next)
  }

  lemma {:induction false} DriveFrom(env: Env, rs: RuleSet, request: SigningRequest, pos: nat, clock: Clock, m: Buckets)
    requires pos <= |rs.rules|
    ensures var (ok, next) := RateScan(env, request, clock, rs.rules[pos..], m);
            Drive(env, rs, Limiting(request, pos), clock, m)
            == (if ok then Back(env, request, rs)
                else Denied(Other("rate limited"), HitsAfter5(env, request, rs.rules), "rate-limit"), next)
    decreases |rs.rules| - pos
  {
    hide Acquire, Back, HitsAfter5, RateLimitKey;
    var p := Limiting(request, pos);
    if pos < |rs.rules| {
      var r := rs.rules[pos];
      assert rs.rules[pos..][0] == r && rs.rules[pos..][1..] == rs.rules[pos + 1..];
      if r.RateLimit? {
        var call := CallFor(env, request, clock, r);
        assert CallAt(env, rs, p, clock(r)) == Some(call);
        DriveFrom(env, rs, request, pos + 1, clock, Acquire(m, call).1);
      } else {
        DriveFrom(env, rs, request, pos + 1, clock, m);
      }
    } else {
      assert rs.rules[pos..] == [];
    }
  }

  /** Undisturbed, the steps of an evaluation are the evaluator. */
  lemma AloneIsEvaluate(env: Env, rs: RuleSet, request: SigningRequest, clock: Clock, m: Buckets)
    ensures Drive(env, rs, Launch(env, rs, request), clock, m) == Evaluated(env, request, rs, clock, m)
  {
    hide Front, Back, HitsAfter5, RateScan;
    DriveFrom(env, rs, request, 0, clock, m);
    assert rs.rules[0..] == rs.rules;
  }

  // ------------------------------------------------------------ what every interleaving keeps

  /** `rule` is the only rate-limit rule of its scope. */
  ghost predicate OwnsScope(rules: seq<Rule>, rule: Rule) {
    && rule in rules && rule.RateLimit?
    && forall r :: r in rules && r.RateLimit? && r.scope == rule.scope ==> r == rule
  }

  /** The evaluations with bucket `key` that have left position `at` behind. */
  function Past(env: Env, s: State, scope: Scope, key: Bytes, at: nat): set<nat> {
    set id | id in s.procs && s.procs[id].pos > at && RateLimitKey(env, scope, s.procs[id].request) == key
  }

  /** The evaluations with bucket `key` that ended other than in a denial. */
  function Admitted(env: Env, s: State, scope: Scope, key: Bytes): set<nat> {
    set id | id in s.procs && s.procs[id].Returned? && Admits(s.procs[id].outcome)
             && RateLimitKey(env, scope, s.procs[id].request) == key
  }

  /** Only an evaluation past the whole list can admit. */
  ghost predicate ProcSound(rs: RuleSet, p: Proc) {
    p.pos <= |rs.rules| && (p.Returned? && Admits(p.outcome) ==> p.pos == |rs.rules|)
  }

  ghost predicate ProcsSound(rs: RuleSet, procs: map<nat, Proc>) {
    forall id :: id in procs ==> ProcSound(rs, procs[id])
  }

  /** The evaluations that have returned. */
  function Done(s: State): set<nat> {
    set id | id in s.procs && s.procs[id].Returned?
  }

  /** The evaluations of a window past the rule: those in flight there at its start, and those that got there since. */
  function Live(env: Env, start: State, s: State, scope: Scope, key: Bytes, at: nat): set<nat> {
    Past(env, s, scope, key, at) - Done(start)
  }

  /** What returned before the window stays as it was. */
  ghost predicate Kept(start: State, s: State) {
    forall id :: id in Done(start) ==> id in s.procs && s.procs[id] == start.procs[id]
  }

  /** Each evaluation that got past the rule in the window owns a granted call of its own. */
  ghost predicate Sound(env: Env, rs: RuleSet, start: State, s: State, rule: Rule, at: nat, key: Bytes)
    requires rule.RateLimit?
  {
    && s.limiter == After(start.limiter, s.calls)
    && ProcsSound(rs, s.procs) && Kept(start, s)
    && |Live(env, start, s, rule.scope, key, at)|
       <= |Live(env, start, start, rule.scope, key, at)| + Grants(start.limiter, s.calls, key)
    && Uniform(s.calls, key, rule.tokens, rule.refillPerSecs)
  }

  lemma LaunchSound(env: Env, rs: RuleSet, request: SigningRequest)
    ensures ProcSound(rs, Launch(env, rs, request)) && Launch(env, rs, request).pos == 0
    ensures Launch(env, rs, request).request == request
  {
    hide Front;
    FrontNeverAdmits(env, request, rs.rules);
  }

  /** A new evaluation is past nothing and disturbs nothing. */
  lemma StartKeeps(env: Env, rs: RuleSet, start: State, s: State, a: Action, scope: Scope, key: Bytes, at: nat)
    requires a.Start? && Enabled(s, a) && ProcsSound(rs, s.procs) && Kept(start, s)
    ensures var t := Next(env, rs, s, a);
            ProcsSound(rs, t.procs) && Kept(start, t) && Past(env, t, scope, key, at) == Past(env, s, scope, key, at)
  {
    hide Launch, ProcSound, RateLimitKey, Done;
    LaunchSound(env, rs, a.request);
  }

  lemma StartStaysSound(env: Env, rs: RuleSet, start: State, s: State, a: Action, rule: Rule, at: nat, key: Bytes)
    requires rule.RateLimit? && Sound(env, rs, start, s, rule, at, key) && a.Start? && Enabled(s, a)
    ensures Sound(env, rs, start, Next(env, rs, s, a), rule, at, key)
  {
    hide Launch, ProcsSound, Kept, Past, RateLimitKey, After, Grants, Uniform, Done;
    StartKeeps(env, rs, start, s, a, rule.scope, key, at);
  }

  lemma SteppedSound(env: Env, rs: RuleSet, p: Proc, granted: bool)
    requires p.Limiting? && p.pos <= |rs.rules|
    ensures var q := Stepped(env, rs, p, granted);
            && ProcSound(rs, q) && q.request == p.request && p.pos <= q.pos <= p.pos + 1
            && (q.pos > p.pos ==> p.pos < |rs.rules| && (rs.rules[p.pos].RateLimit? ==> granted))
  {
    hide Back, HitsAfter5;
  }

  /** One call more: it counts when it is granted under the key. */
  lemma GrantsOneMore(m: Buckets, calls: seq<Call>, call: Call, key: Bytes)
    ensures var (ok, next) := Acquire(After(m, calls), call);
            && After(m, calls + [call]) == next
            && Grants(m, calls + [call], key) == Grants(m, calls, key) + if ok && call.key == key then 1 else 0
  {
    hide Acquire;
    RunConcat(m, calls, [call], key);
    var next := After(m, calls);
    assert [call][1..] == [];
    assert After(next, [call]) == After(Acquire(next, call).1, []);
    assert Grants(Acquire(next, call).1, [], key) == 0;
  }

  /** One evaluation takes one step and the others stay. */
  ghost predicate Moves(s: State, t: State, id: nat) {
    && id in s.procs && id in t.procs && t.procs == s.procs[id := t.procs[id]] && s.procs[id].Limiting?
    && t.procs[id].request == s.procs[id].request && s.procs[id].pos <= t.procs[id].pos <= s.procs[id].pos + 1
  }

  lemma MoveKeeps(start: State, s: State, t: State, id: nat)
    requires Moves(s, t, id) && Kept(start, s)
    ensures Kept(start, t) && id !in Done(start)
  {
  }

  /** Two sets that differ at most in one element, less a set without it. */
  lemma OneElement(p: set<nat>, q: set<nat>, done: set<nat>, id: nat)
    requires id !in done && forall k :: k != id ==> (k in q <==> k in p)
    ensures id in q && id !in p ==> |q - done| == |p - done| + 1
    ensures (id in q <==> id in p) ==> |q - done| == |p - done|
  {
    if id in q && id !in p {
      assert q - done == (p - done) + {id};
    } else if id in q <==> id in p {
      assert q == p;
    }
  }

  /** Only the evaluation that moves can get past the rule, and only by a step from the rule. */
  lemma LiveStep(env: Env, start: State, s: State, t: State, id: nat, scope: Scope, key: Bytes, at: nat)
    requires Moves(s, t, id) && Kept(start, s)
    ensures var crosses := s.procs[id].pos == at < t.procs[id].pos && RateLimitKey(env, scope, s.procs[id].request)
            == key;
            |Live(env, start, t, scope, key, at)| == |Live(env, start, s, scope, key, at)| + if crosses then 1 else 0
    ensures Kept(start, t)
  {
    hide RateLimitKey, Past, Done, Kept;
    MoveKeeps(start, s, t, id);
    PastMembers(env, s, t, id, scope, key, at);
    OneElement(Past(env, s, scope, key, at), Past(env, t, scope, key, at), Done(start), id);
  }

  lemma PastMembers(env: Env, s: State, t: State, id: nat, scope: Scope, key: Bytes, at: nat)
    requires Moves(s, t, id)
    ensures forall k :: k != id ==> (k in Past(env, t, scope, key, at) <==> k in Past(env, s, scope, key, at))
    ensures id in Past(env, s, scope, key, at) <==>
              s.procs[id].pos > at && RateLimitKey(env, scope, s.procs[id].request) == key
    ensures id in Past(env, t, scope, key, at) <==>
              t.procs[id].pos > at && RateLimitKey(env, scope, s.procs[id].request) == key
  {
    hide RateLimitKey;
  }

  /** A call under the key is the owning rule's. */
  lemma CallIsOwners(env: Env, rs: RuleSet, p: Proc, now: int, rule: Rule, owner: SigningRequest)
    requires OwnsScope(rs.rules, rule) && CallAt(env, rs, p, now).Some?
    ensures var call := CallAt(env, rs, p, now).value;
            call.key == RateLimitKey(env, rule.scope, owner) ==>
              call.capacity == rule.tokens && call.refillPerSecs == rule.refillPerSecs
  {
    hide RateLimitKey;
    var r := rs.rules[p.pos];
    assert r in rs.rules;
    if CallAt(env, rs, p, now).value.key == RateLimitKey(env, rule.scope, owner) {
      ScopesApart(env, r.scope, rule.scope, p.request, owner);
    }
  }

  /** `rule`, which owns its scope, stands at position `at`. */
  ghost predicate OwnsAt(rules: seq<Rule>, rule: Rule, at: nat) {
    OwnsScope(rules, rule) && at < |rules| && rules[at] == rule
  }

  lemma OwnerLimits(rules: seq<Rule>, rule: Rule, at: nat)
    requires OwnsAt(rules, rule, at)
    ensures rule.RateLimit? && OwnsScope(rules, rule) && at < |rules| && rules[at] == rule
  {
  }

  lemma AdvanceStaysSound(env: Env, rs: RuleSet, start: State, s: State, a: Action, rule: Rule, at: nat,
                          owner: SigningRequest)
    requires rule.RateLimit? && OwnsAt(rs.rules, rule, at)
    requires Sound(env, rs, start, s, rule, at, RateLimitKey(env, rule.scope, owner)) && a.Advance? && Enabled(s, a)
    ensures Sound(env, rs, start, Next(env, rs, s, a), rule, at, RateLimitKey(env, rule.scope, owner))
  {
    hide RateLimitKey, Acquire, After, Grants, Stepped, Live, OwnsScope, Kept;
    var key, t, p := RateLimitKey(env, rule.scope, owner), Next(env, rs, s, a), s.procs[a.id];
    assert ProcSound(rs, p);
    match CallAt(env, rs, p, a.now) {
      case None =>
        SteppedSound(env, rs, p, true);
        LiveStep(env, start, s, t, a.id, rule.scope, key, at);
      case Some(call) =>
        SteppedSound(env, rs, p, Acquire(s.limiter, call).0);
        LiveStep(env, start, s, t, a.id, rule.scope, key, at);
        GrantsOneMore(start.limiter, s.calls, call, key);
        CallIsOwners(env, rs, p, a.now, rule, owner);
    }
  }

  lemma {:induction false} RunsStaySound(env: Env, rs: RuleSet, start: State, s: State, actions: seq<Action>, t: State,
                                         rule: Rule, at: nat, owner: SigningRequest)
    requires rule.RateLimit? && OwnsAt(rs.rules, rule, at)
    requires Sound(env, rs, start, s, rule, at, RateLimitKey(env, rule.scope, owner)) && Runs(env, rs, s, actions, t)
    ensures Sound(env, rs, start, t, rule, at, RateLimitKey(env, rule.scope, owner))
    decreases |actions|
  {
    hide Sound, Next, RateLimitKey, OwnsAt;
    if actions != [] {
      if actions[0].Start? {
        StartStaysSound(env, rs, start, s, actions[0], rule, at, RateLimitKey(env, rule.scope, owner));
      } else {
        AdvanceStaysSound(env, rs, start, s, actions[0], rule, at, owner);
      }
      RunsStaySound(env, rs, start, Next(env, rs, s, actions[0]), actions[1..], t, rule, at, owner);
    }
  }

  lemma SubsetSize(a: set<nat>, b: set<nat>)
    requires a <= b
    ensures |a| <= |b|
  {
    assert b == a + (b - a);
  }

  /** Any state a window can open in: some evaluations in flight, some returned. */
  function Opening(m: Buckets, procs: map<nat, Proc>): State {
    State(m, procs, [])
  }

  /**
   In any interleaving, each evaluation a window admits was past the rule when the
   window opened or has a granted limiter call of its own in it.
   */
  lemma AdmittedAtMostGrants(env: Env, rs: RuleSet, m: Buckets, procs: map<nat, Proc>, actions: seq<Action>, s: State,
                             rule: Rule, at: nat, owner: SigningRequest)
    requires OwnsAt(rs.rules, rule, at) && ProcsSound(rs, procs) && Runs(env, rs, Opening(m, procs), actions, s)
    ensures rule.RateLimit?
    ensures var key, start := RateLimitKey(env, rule.scope, owner), Opening(m, procs);
            && |Admitted(env, s, rule.scope, key) - Admitted(env, start, rule.scope, key)|
               <= |Live(env, start, start, rule.scope, key, at)| + Grants(m, s.calls, key)
            && Uniform(s.calls, key, rule.tokens, rule.refillPerSecs)
  {
    hide Runs, RateLimitKey, Grants, Uniform, After, Past;
    OwnerLimits(rs.rules, rule, at);
    var key, start := RateLimitKey(env, rule.scope, owner), Opening(m, procs);
    NothingYet(m, key, rule);
    RunsStaySound(env, rs, start, start, actions, s, rule, at, owner);
    SinceIsLive(env, rs, start, s, rule.scope, key, at);
    hide Admitted, Live;
    SubsetSize(Admitted(env, s, rule.scope, key) - Admitted(env, start, rule.scope, key),
               Live(env, start, s, rule.scope, key, at));
  }

  lemma SinceIsLive(env: Env, rs: RuleSet, start: State, s: State, scope: Scope, key: Bytes, at: nat)
    requires ProcsSound(rs, s.procs) && Kept(start, s) && at < |rs.rules|
    ensures Admitted(env, s, scope, key) - Admitted(env, start, scope, key) <= Live(env, start, s, scope, key, at)
  {
    hide RateLimitKey, Admits;
    forall id | id in Admitted(env, s, scope, key) - Admitted(env, start, scope, key)
      ensures id in Live(env, start, s, scope, key, at) {
      assert ProcSound(rs, s.procs[id]);
    }
  }

  lemma NothingYet(m: Buckets, key: Bytes, rule: Rule)
    requires rule.RateLimit?
    ensures After(m, []) == m && Grants(m, [], key) == 0 && Uniform([], key, rule.tokens, rule.refillPerSecs)
  {
  }

  /** Every state reached from no evaluations is one a window can open in. */
  lemma {:induction false} ReachedIsSound(env: Env, rs: RuleSet, s: State, actions: seq<Action>, t: State)
    requires ProcsSound(rs, s.procs) && Runs(env, rs, s, actions, t)
    ensures ProcsSound(rs, t.procs)
    decreases |actions|
  {
    hide ProcSound, Launch, Stepped, Acquire;
    if actions != [] {
      match actions[0] {
        case Start(id, request) => LaunchSound(env, rs, request);
        case Advance(id, now) =>
          BeforeEnd(rs, s.procs[id]);
          SteppedSound(env, rs, s.procs[id], true);
          SteppedSound(env, rs, s.procs[id], false);
      }
      ReachedIsSound(env, rs, Next(env, rs, s, actions[0]), actions[1..], t);
    }
  }

  lemma BeforeEnd(rs: RuleSet, p: Proc)
    requires ProcSound(rs, p)
    ensures p.pos <= |rs.rules|
  {
  }

  lemma {:induction false} NoCallNoGrant(m: Buckets, calls: seq<Call>, key: Bytes)
    requires forall i :: 0 <= i < |calls| ==> calls[i].key != key
    ensures Grants(m, calls, key) == 0
    decreases |calls|
  {
    hide Acquire;
    if calls != [] {
      NoCallNoGrant(Acquire(m, calls[0]).1, calls[1..], key);
    }
  }

  /** What the limiter can grant a key over a list of calls. */
  ghost predicate WithinBudget(granted: nat, calls: seq<Call>, key: Bytes, rule: Rule)
    requires rule.RateLimit?
  {
    if rule.refillPerSecs == 0 then granted <= rule.tokens
    else if !(exists i :: 0 <= i < |calls| && calls[i].key == key) then granted == 0
    else
      var first := FirstTime(calls, key);
      && granted as real <= rule.tokens as real + Worth(Rise(calls, key, first), rule.refillPerSecs)
      && (ClockOrder(calls) ==>
            granted as real <= rule.tokens as real + Worth(LastTime(calls, key, first) - first, rule.refillPerSecs))
  }

  lemma GrantsWithinBudget(m: Buckets, calls: seq<Call>, key: Bytes, rule: Rule)
    requires rule.RateLimit? && Within(m, key, rule.tokens) && Uniform(calls, key, rule.tokens, rule.refillPerSecs)
    ensures WithinBudget(Grants(m, calls, key), calls, key, rule)
  {
    hide Worth, Rise, FirstTime, Grants, ClockOrder, LastTime, Uniform;
    if rule.refillPerSecs == 0 {
      FixedBudget(m, calls, key, rule.tokens);
    } else if exists i :: 0 <= i < |calls| && calls[i].key == key {
      WindowBound(m, calls, key, rule.tokens, rule.refillPerSecs);
      if ClockOrder(calls) { ClockOrderBound(m, calls, key, rule.tokens, rule.refillPerSecs); }
    } else {
      NoCallNoGrant(m, calls, key);
    }
  }

  /**
   The rate-limit law for decisions. However the limiter calls of concurrent
   evaluations interleave, the requests a window lets past under one key are at most
   those already past the owning rule when it opens, plus the rule's tokens, plus what
   the time gained between that key's limiter calls pays for; in clock order that is
   the time elapsed.
   */
  lemma AdmissionBound(env: Env, rs: RuleSet, m: Buckets, procs: map<nat, Proc>, actions: seq<Action>, s: State,
                       rule: Rule, at: nat, owner: SigningRequest)
    requires OwnsAt(rs.rules, rule, at) && ProcsSound(rs, procs) && Runs(env, rs, Opening(m, procs), actions, s)
    requires rule.RateLimit? && Within(m, RateLimitKey(env, rule.scope, owner), rule.tokens)
    ensures var key, start := RateLimitKey(env, rule.scope, owner), Opening(m, procs);
            var admitted := |Admitted(env, s, rule.scope, key) - Admitted(env, start, rule.scope, key)|;
            var inFlight := |Live(env, start, start, rule.scope, key, at)|;
            exists granted: nat :: admitted <= inFlight + granted && WithinBudget(granted, s.calls, key, rule)
  {
    hide Runs, Admitted, Live, RateLimitKey, Grants, WithinBudget, Uniform, ProcsSound;
    var key := RateLimitKey(env, rule.scope, owner);
    AdmittedAtMostGrants(env, rs, m, procs, actions, s, rule, at, owner);
    GrantsWithinBudget(m, s.calls, key, rule);
  }

  /** From no evaluations, all that is let past is the limiter's to grant. */
  lemma AdmissionFromStart(env: Env, rs: RuleSet, m: Buckets, actions: seq<Action>, s: State, rule: Rule, at: nat,
                           owner: SigningRequest)
    requires OwnsAt(rs.rules, rule, at) && Runs(env, rs, Opening(m, map[]), actions, s)
    requires rule.RateLimit? && Within(m, RateLimitKey(env, rule.scope, owner), rule.tokens)
    ensures var key := RateLimitKey(env, rule.scope, owner);
            exists granted: nat :: |Admitted(env, s, rule.scope, key)| <= granted
                && WithinBudget(granted, s.calls, key, rule)
  {
    hide Runs, RateLimitKey, WithinBudget;
    var key, start := RateLimitKey(env, rule.scope, owner), Opening(m, map[]);
    AdmissionBound(env, rs, m, map[], actions, s, rule, at, owner);
    assert Live(env, start, start, rule.scope, key, at) == {} && Admitted(env, start, rule.scope, key) == {};
    assert Admitted(env, s, rule.scope, key) - {} == Admitted(env, s, rule.scope, key);
  }
}
