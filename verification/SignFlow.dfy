/**
 A signing call from its policy decision to the enclave's answer: the service signs
 the decision (crates/qfc-policy/src/policy_service_signer.rs), hands the bundle over
 without approvals (crates/qfc-server-wallet/src/service.rs), and the enclave checks
 it before it touches a share (crates/qfc-enclave/src/enclaves/mock.rs).
 */
module SignFlow {
  import opened Bytes
  import opened Outcomes
  import opened WalletTypes
  import opened Freshness
  import opened HybridVerifier
  import opened WalletService
  import Audit = AuditChain
  import Limiter = RateLimit
  import Policy = RuleSetPolicy
  import Laws = PolicyLaws
  import Hd = HdPath
  import Evm = EvmDecoder
  import Trace = SignTrace

  /** Seconds a signed decision stays valid when the service signs it. */
  const MAX_DECISION_AGE_SECS_DEFAULT := 60

  /** What the service and the enclave are configured with: the policy key, and the pinned public key. */
  datatype Wiring = Wiring(signer: Option<Bytes>, pinned: Option<Bytes>, required: bool)

  /** The decision lets the call go on: `collected` says whether a quorum was gathered without a rejection. */
  predicate GoesOn(decision: Policy.Decision, collected: bool) {
    match decision
    case Allow(_) => true
    case Deny(_, _) => false
    case Quorum(_, _, _, _) => collected
  }

  /** The bundle the service builds, when a signer is wired and its clock fits. */
  function Bundle(tools: Tools, wiring: Wiring, decision: Policy.Decision, request: SigningRequest, clock: int)
    : Option<SignedPolicyDecision>
  {
    if wiring.signer.Some? && I64(clock) then
      Some(SignedBy(tools, wiring.signer.value, decision, request.requestId, request.walletId,
                    MAX_DECISION_AGE_SECS_DEFAULT, clock))
    else None
  }

  lemma BundleTyped(tools: Tools, wiring: Wiring, decision: Policy.Decision, request: SigningRequest, clock: int)
    ensures var b := Bundle(tools, wiring, decision, request, clock);
            b.Some? ==> b.value.Typed() && b.value.decision == decision
  {
  }

  /** The enclave's own verdict: only an enclave with a pinned key gives one. */
  predicate Refuses(tools: Tools, wiring: Wiring, bundle: Option<SignedPolicyDecision>, request: SigningRequest,
                    wallet: WalletCeilings, now: int)
    requires I64(now) && (bundle.Some? ==> bundle.value.Typed())
  {
    wiring.pinned.Some? && !Accepts(tools, wiring.pinned.value, wiring.required, bundle, [], request, wallet, now)
  }

  /** No bundle for a quorum of at least one passes a pinned enclave: the call hands over no approvals. */
  lemma QuorumIsRefused(tools: Tools, key: Bytes, required: bool, signed: SignedPolicyDecision, request: SigningRequest,
                        wallet: WalletCeilings, now: int)
    requires I64(now) && signed.Typed() && signed.decision.Quorum? && signed.decision.threshold > 0
    ensures !Accepts(tools, key, required, Some(signed), [], request, wallet, now)
  {
    hide DecisionBinds, CeilingsMet;
  }

  /** And a validated rule set asks for no other quorum. */
  lemma EvaluatedQuorumIsRefused(env: Policy.Env, rs: Policy.RuleSet, clock: Policy.Clock, m: Limiter.Buckets,
                                 tools: Tools, key: Bytes, required: bool, signed: SignedPolicyDecision,
                                 request: SigningRequest, wallet: WalletCeilings, now: int)
    requires Policy.Validated(env, rs) && I64(now) && signed.Typed() && signed.decision.Quorum?
    requires Policy.Evaluated(env, request, rs, clock, m).0 == Policy.Decided(signed.decision)
    ensures !Accepts(tools, key, required, Some(signed), [], request, wallet, now)
  {
    hide Policy.Evaluated, Policy.QuorumScan, Accepts, Policy.RuleOk;
    Laws.QuorumIsFirstFiring(env, request, rs, clock, m);
    Laws.ScanFindsFiring(env, request, rs.rules);
    var r := Policy.QuorumScan(env, request, rs.rules).rule;
    assert Laws.Demands(r, (r.threshold, r.total, r.approverSet));
    var i :| 0 <= i < |rs.rules| && rs.rules[i] == r;
    QuorumRuleAsks(env, rs.rules[i]);
    QuorumIsRefused(tools, key, required, signed, request, wallet, now);
  }

  lemma QuorumRuleAsks(env: Policy.Env, r: Policy.Rule)
    requires Policy.RuleOk(env, r) && r.RequireQuorum?
    ensures r.threshold > 0
  {
  }

  /** The response is the wallet's working key's signature over the payload's own message. */
  ghost predicate SignsPayload(signers: Signers, scheme: SigningScheme, seed: Bytes, path: Option<Hd.Path>,
                               tools: Tools, p: SigningPayload, r: Response)
  {
    exists key, message :: WorkingKey(signers, scheme, seed, path, key) && IsMessage(tools, p, message)
                           && SignedWith(signers, scheme, key, message, r)
  }

  /** The response is the working key's signature over a canonical transaction that moves at most the cap. */
  ghost predicate SignsWithinCap(signers: Signers, scheme: SigningScheme, seed: Bytes, path: Option<Hd.Path>, cap: nat,
                                 r: Response)
  {
    exists key, e :: WorkingKey(signers, scheme, seed, path, key) && Evm.WellFormed(e) && e.value <= cap
                     && SignedWith(signers, scheme, key, Evm.Encode(e), r)
  }

  /** A signature over a payload that passed the ceilings is over a transaction within the cap. */
  lemma CappedSignature(signers: Signers, scheme: SigningScheme, seed: Bytes, path: Option<Hd.Path>, tools: Tools,
                        p: SigningPayload, wallet: WalletCeilings, r: Response)
    requires SignsPayload(signers, scheme, seed, path, tools, p, r)
    requires CeilingsMet(p, wallet) && wallet.maxValuePerTx.Some? && EvmPayload(p)
    ensures SignsWithinCap(signers, scheme, seed, path, wallet.maxValuePerTx.value, r)
  {
    hide CeilingsMet, Evm.WellFormed, Evm.Encode, WorkingKey, SignedWith;
    var e := CapMeansCanonical(p, wallet);
  }

  /** The enclave refuses what the service hands over for this decision. */
  ghost predicate RefusesBundle(tools: Tools, wiring: Wiring, decision: Policy.Decision, request: SigningRequest,
                                wallet: WalletCeilings, clock: int, now: int)
    requires I64(now)
  {
    BundleTyped(tools, wiring, decision, request, clock);
    Refuses(tools, wiring, Bundle(tools, wiring, decision, request, clock), request, wallet, now)
  }

  /**
   What a returned signature means. The decision let the call go on and the enclave did
   not refuse. The signature is over the payload's own message; without a path it is
   under the recorded master key. With a signer wired and a key pinned, only an allow
   (or an empty quorum) gets one, only while fresh and within the ceilings; and under a
   value cap it is over a canonical transaction that moves at most the cap.
   */
  ghost predicate Proper(signers: Signers, record: WalletRecord, seed: Bytes, tools: Tools, wiring: Wiring,
                         decision: Policy.Decision, collected: bool, request: SigningRequest, wallet: WalletCeilings,
                         path: Option<Hd.Path>, clock: int, now: int, r: Response)
    requires I64(now)
  {
    && GoesOn(decision, collected) && !RefusesBundle(tools, wiring, decision, request, wallet, clock, now)
    && (wiring.signer.Some? ==> I64(clock))
    && (path.None? ==> r.publicKey == record.masterPublicKey)
    && SignsPayload(signers, record.config.scheme, seed, path, tools, request.payload, r)
    && (wiring.signer.Some? && wiring.pinned.Some? ==>
          && (decision.Allow? || (decision.Quorum? && decision.threshold == 0))
          && Fresh(Bundle(tools, wiring, decision, request, clock).value, now) && CeilingsMet(request.payload, wallet)
          && (wallet.maxValuePerTx.Some? && EvmPayload(request.payload) ==>
                SignsWithinCap(signers, record.config.scheme, seed, path, wallet.maxValuePerTx.value, r)))
  }

  lemma ProperWhenSigned(signers: Signers, record: WalletRecord, seed: Bytes, tools: Tools, wiring: Wiring,
                         decision: Policy.Decision, collected: bool, request: SigningRequest, wallet: WalletCeilings,
                         path: Option<Hd.Path>, clock: int, now: int, r: Response)
    requires I64(now) && GoesOn(decision, collected) && (wiring.signer.Some? ==> I64(clock))
    requires !RefusesBundle(tools, wiring, decision, request, wallet, clock, now)
    requires path.None? ==> r.publicKey == record.masterPublicKey
    requires SignsPayload(signers, record.config.scheme, seed, path, tools, request.payload, r)
    ensures Proper(signers, record, seed, tools, wiring, decision, collected, request, wallet, path, clock, now, r)
  {
    hide Refuses, SignsPayload, SignsWithinCap, CeilingsMet, Fresh;
    BundleTyped(tools, wiring, decision, request, clock);
    if wiring.signer.Some? && wiring.pinned.Some? {
      AcceptedBundle(tools, wiring, Bundle(tools, wiring, decision, request, clock).value, request, wallet, now);
      if wallet.maxValuePerTx.Some? && EvmPayload(request.payload) {
        CappedSignature(signers, record.config.scheme, seed, path, tools, request.payload, wallet, r);
      }
    }
  }

  /** The service signs the decision, and the enclave checks what it is handed: no approvals. */
  method HandOver(tools: Tools, wiring: Wiring, decision: Policy.Decision, collected: bool, request: SigningRequest,
                  wallet: WalletCeilings, clock: int, now: int) returns (stopped: bool, refused: bool)
    requires I64(now)
    ensures stopped <==> !GoesOn(decision, collected) || (wiring.signer.Some? && !I64(clock))
    ensures refused <==> RefusesBundle(tools, wiring, decision, request, wallet, clock, now)
  {
    hide SignedBy, Accepts;
    BundleTyped(tools, wiring, decision, request, clock);
    ghost var expected := Bundle(tools, wiring, decision, request, clock);
    stopped := !GoesOn(decision, collected);
    var bundle: Option<SignedPolicyDecision> := None;
    if wiring.signer.Some? {
      bundle := SignDecision(tools, wiring.signer.value, decision, request.requestId, request.walletId,
                             MAX_DECISION_AGE_SECS_DEFAULT, clock);
      stopped := stopped || bundle.None?;
    }
    assert bundle == expected;
    refused := false;
    if wiring.pinned.Some? {
      var error := Verify(tools, wiring.pinned.value, wiring.required, bundle, [], request, wallet, now);
      refused := error.Some?;
    }
  }

  /**
   `sign` from the decision on: what a signature means, the answer when nothing stops,
   refuses or loses anything, and the error when the wallet or the decision stops the call.
   */
  method SignDecided(service: Service, tools: Tools, wiring: Wiring, decision: Policy.Decision, collected: bool,
                     request: SigningRequest, wallet: WalletCeilings, path: Option<Hd.Path>, clock: int, now: int,
                     lost: byte -> bool) returns (r: Outcome<Response, ServiceError>)
    requires service.Valid() && I64(now) && wallet.walletId == request.walletId
    ensures var w := request.walletId;
            && (w !in service.wallets || service.wallets[w].status == Revoked ==> r == Err(WalletNotFound))
            && (w in service.wallets && service.wallets[w].status == Active
                && (!GoesOn(decision, collected) || (wiring.signer.Some? && !I64(clock)))
                ==> r == Err(Stopped))
    ensures var w := request.walletId;
            r.Ok? ==>
              && w in service.wallets && service.wallets[w].status == Active && w in service.deals
              && Proper(service.signers, service.wallets[w], service.deals[w].secret, tools, wiring, decision,
                        collected, request, wallet, path, clock, now, r.value)
    ensures var w := request.walletId;
            && GoesOn(decision, collected) && !RefusesBundle(tools, wiring, decision, request, wallet, clock, now)
            && (wiring.signer.Some? ==> I64(clock))
            && w in service.wallets && service.wallets[w].status == Active
            && |IndicesOf(service.shares, w)| >= service.wallets[w].config.threshold
            && (forall i :: i in IndicesOf(service.shares, w) ==> !lost(i))
            ==> w in service.deals
                && exists message :: IsMessage(tools, request.payload, message)
                                     && r == Answer(KeySigned(service.signers, service.wallets[w].config.scheme,
                                                              service.deals[w].secret, path, message))
  {
    hide KeySigned, CanonicalMessage, IndicesOf, Answer, Sound, Proper, RefusesBundle;
    hide WorkingKey, SignedWith, IsMessage, Lowest;
    var stopped, refused := HandOver(tools, wiring, decision, collected, request, wallet, clock, now);
    var message := CanonicalMessage(tools, request.payload);
    MessageExactly(tools, request.payload, message);
    RecordedHasDeal(service, request.walletId);
    r := service.Sign(request.walletId, path, message, stopped, refused, lost);
    if r.Ok? {
      var w := request.walletId;
      ProperWhenSigned(service.signers, service.wallets[w], service.deals[w].secret, tools, wiring, decision,
                       collected, request, wallet, path, clock, now, r.value);
    }
  }

  lemma RecordedHasDeal(service: Service, w: Ulid)
    requires service.Valid()
    ensures w in service.wallets ==> w in service.deals
  {
  }

  lemma AcceptedBundle(tools: Tools, wiring: Wiring, bundle: SignedPolicyDecision, request: SigningRequest,
                       wallet: WalletCeilings, now: int)
    requires I64(now) && bundle.Typed() && wiring.pinned.Some?
    requires !Refuses(tools, wiring, Some(bundle), request, wallet, now)
    ensures bundle.decision.Allow? || (bundle.decision.Quorum? && bundle.decision.threshold == 0)
    ensures Fresh(bundle, now) && CeilingsMet(request.payload, wallet)
  {
    hide CeilingsMet, Fresh;
  }

  // ------------------------------------------------------------ the trace of the same call

  function VerdictOf(decision: Policy.Decision): Trace.Verdict {
    match decision
    case Allow(_) => Trace.Allow
    case Deny(_, _) => Trace.Deny
    case Quorum(_, _, _, _) => Trace.Quorum
  }

  /** Votes were collected and none of them rejects. */
  predicate Gathered(notified: bool, collected: Trace.Collected) {
    notified && collected.Votes? && false !in collected.votes
  }

  /** The world a decided call meets, with the enclave's answer as it turned out. */
  function WorldOf(active: bool, decision: Policy.Decision, notified: bool, collected: Trace.Collected, wiring: Wiring,
                   clock: int, r: Outcome<Response, ServiceError>, writes: nat -> Trace.Write): Trace.World
  {
    Trace.World(active, Some(VerdictOf(decision)), notified, collected,
                if wiring.signer.None? then Trace.NoSigner else if I64(clock) then Trace.Signs else Trace.SignFails,
                !(r.Err? && (r.error.StoreFailed? || r.error.InsufficientShares?)), r.Ok?, writes)
  }

  /**
   The answer and the trace together. When every audit write goes through, the call
   returns a signature to the log exactly when the enclave gave one; and a quorum of
   at least one, gathered in full, with a signer wired and a key pinned, ends in a
   failed signing, complete in the log.
   */
  method SignAudited(service: Service, call: Trace.SignCall, tools: Tools, wiring: Wiring, decision: Policy.Decision,
                     notified: bool, collected: Trace.Collected, request: SigningRequest, wallet: WalletCeilings,
                     path: Option<Hd.Path>, clock: int, now: int, lost: byte -> bool)
    returns (r: Outcome<Response, ServiceError>, signature: bool)
    requires service.Valid() && I64(now) && wallet.walletId == request.walletId
    requires call.Valid() && call.pc == Trace.Entered
    modifies call, call.audit
    ensures call.Valid() && call.pc == Trace.Returned(signature)
    ensures signature ==> r.Ok?
    ensures call.AllKept() && r.Ok? ==> signature
    ensures call.AllKept() ==>
              var w := request.walletId;
              var active := w in service.wallets && service.wallets[w].status == Active;
              call.trace
              == Trace.FullTrace(WorldOf(active, decision, notified, collected, wiring, clock, r, call.writes))
    ensures call.AllKept() && r.Err? && !r.error.StoreFailed? && !r.error.InsufficientShares?
            && request.walletId in service.wallets && service.wallets[request.walletId].status == Active
            && decision.Quorum? && decision.threshold > 0 && Gathered(notified, collected)
            && wiring.signer.Some? && wiring.pinned.Some? && I64(clock)
            ==> call.trace == Trace.Text(Trace.SignedStory(Some(VoteCount(collected)), true, false))
    ensures decision.Quorum? && decision.threshold > 0 && wiring.signer.Some? && wiring.pinned.Some? ==> !r.Ok?
  {
    hide Refuses, Bundle, KeySigned, CeilingsMet, Fresh, IndicesOf, Answer, Sound, IsMessage;
    hide Trace.Reaches, Trace.Stamped, Trace.Text, Trace.FullTrace, Trace.Favourable, WorldOf, Gathered;
    var w := request.walletId;
    var active := w in service.wallets && service.wallets[w].status == Active;
    r := SignDecided(service, tools, wiring, decision, Gathered(notified, collected), request, wallet, path, clock,
                     now, lost);
    var world := WorldOf(active, decision, notified, collected, wiring, clock, r, call.writes);
    SignedMeansFavourable(active, decision, notified, collected, wiring, clock, r, call.writes);
    signature := call.Sign(world);
    RefusedTrace(active, decision, notified, collected, wiring, clock, r, call.writes);
  }

  lemma SignedMeansFavourable(active: bool, decision: Policy.Decision, notified: bool, collected: Trace.Collected,
                              wiring: Wiring, clock: int, r: Outcome<Response, ServiceError>,
                                  writes: nat -> Trace.Write)
    ensures var world := WorldOf(active, decision, notified, collected, wiring, clock, r, writes);
            && world.audit == writes
            && (Trace.Favourable(world) ==> r.Ok?)
            && (r.Ok? && active && GoesOn(decision, Gathered(notified, collected))
                && (wiring.signer.Some? ==> I64(clock))
                ==> Trace.Favourable(world))
  {
  }

  /** A gathered quorum, a signed decision, shares at hand, and an enclave that does not sign. */
  lemma RefusedTrace(active: bool, decision: Policy.Decision, notified: bool, collected: Trace.Collected,
                     wiring: Wiring, clock: int, r: Outcome<Response, ServiceError>, writes: nat -> Trace.Write)
    ensures active && decision.Quorum? && Gathered(notified, collected) && wiring.signer.Some? && I64(clock)
            && r.Err? && !r.error.StoreFailed? && !r.error.InsufficientShares?
            ==> Trace.FullTrace(WorldOf(active, decision, notified, collected, wiring, clock, r, writes))
                == Trace.Text(Trace.SignedStory(Some(VoteCount(collected)), true, false))
  {
    hide Trace.Ballots;
    if Gathered(notified, collected) {
      var votes := collected.votes;
      Trace.BallotsAllYes(votes);
      assert [Trace.Requested, Trace.Evaluated(Trace.Quorum)]
          + ([Trace.Notified] + (Trace.Ballots(votes) + [Trace.Reached]))
          == Trace.Clearance(Some(|votes|));
    }
  }

  function VoteCount(collected: Trace.Collected): nat {
    if collected.Votes? then |collected.votes| else 0
  }
}
