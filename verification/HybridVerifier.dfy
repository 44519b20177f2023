/**
 The policy re-check inside the enclave (crates/qfc-enclave/src/hybrid_verifier.rs)
 and the signed decision it checks (crates/qfc-policy/src/signed_decision.rs,
 crates/qfc-policy/src/policy_service_signer.rs).
 */
module HybridVerifier {
  import opened Bytes
  import opened WalletTypes
  import opened Freshness
  import opened ApprovalPreimage
  import Anchor = ChainAnchor
  import Audit = AuditChain
  import Policy = RuleSetPolicy
  import Evm = EvmDecoder

  const MAX_DECISION_AGE_SECS := 86400
  const MAX_APPROVALS := 64

  /** "qfc-policy-decision-v1" */
  const POLICY_DECISION_DOMAIN: Bytes := [
    0x71, 0x66, 0x63, 0x2d, 0x70, 0x6f, 0x6c, 0x69, 0x63, 0x79, 0x2d,
    0x64, 0x65, 0x63, 0x69, 0x73, 0x69, 0x6f, 0x6e, 0x2d, 0x76, 0x31]

  /** Hashing and ed25519, approval signatures by scheme, and the JSON text of a decision. */
  datatype Tools = Tools(crypto: Audit.Crypto, approvals: Verifier, decisionJson: Policy.Decision -> Bytes)

  predicate U32(n: int) {
    0 <= n <= U32_MAX
  }

  // ------------------------------------------------------------ signed decisions

  datatype SignedPolicyDecision = SignedPolicyDecision(
    decision: Policy.Decision, requestId: Ulid, walletId: Ulid, rawPayload: Bytes, signature: Bytes,
    signedAtUnixMs: int, maxAgeSecs: int)
  {
    predicate Typed() {
      I64(signedAtUnixMs) && U32(maxAgeSecs)
    }
  }

  function AgeBytes(maxAge: int): (s: Bytes)
    requires U32(maxAge)
    ensures |s| == 4 && FromBE(s) == maxAge
  {
    MachineWidths();
    ToBE(maxAge, 4)
  }

  /** The fields behind the decision text: fixed in number of bytes. */
  function Trailer(requestId: Ulid, walletId: Ulid, signedAt: int, maxAge: int): (s: Bytes)
    requires I64(signedAt) && U32(maxAge)
    ensures |s| == 68
  {
    [0] + requestId + [0] + walletId + [0] + TimestampBytes(signedAt) + [0] + AgeBytes(maxAge)
  }

  function DecisionPreimage(text: Bytes, requestId: Ulid, walletId: Ulid, signedAt: int, maxAge: int): Bytes
    requires I64(signedAt) && U32(maxAge)
  {
    POLICY_DECISION_DOMAIN + [0] + text + Trailer(requestId, walletId, signedAt, maxAge)
  }

  method BuildPreimage(tools: Tools, decision: Policy.Decision, requestId: Ulid, walletId: Ulid, signedAt: int,
                       maxAge: int)
    returns (buf: Bytes)
    requires I64(signedAt) && U32(maxAge)
    ensures buf == DecisionPreimage(tools.decisionJson(decision), requestId, walletId, signedAt, maxAge)
  {
    hide TimestampBytes, AgeBytes;
    buf := POLICY_DECISION_DOMAIN;
    buf := buf + [0];
    buf := buf + tools.decisionJson(decision);
    ghost var front := buf;
    buf := buf + [0];
    buf := buf + requestId;
    buf := buf + [0];
    buf := buf + walletId;
    buf := buf + [0];
    buf := buf + TimestampBytes(signedAt);
    buf := buf + [0];
    buf := buf + AgeBytes(maxAge);
    assert buf == front + Trailer(requestId, walletId, signedAt, maxAge);
  }

  lemma TrailerInjective(r: Ulid, w: Ulid, t: int, a: int, r': Ulid, w': Ulid, t': int, a': int)
    requires I64(t) && U32(a) && I64(t') && U32(a')
    requires Trailer(r, w, t, a) == Trailer(r', w', t', a')
    ensures r == r' && w == w' && t == t' && a == a'
  {
    hide TimestampBytes, AgeBytes, FromBE;
    var s, s' := Trailer(r, w, t, a), Trailer(r', w', t', a');
    assert s[1..27] == r && s'[1..27] == r';
    assert s[28..54] == w && s'[28..54] == w';
    assert s[55..63] == TimestampBytes(t) && s'[55..63] == TimestampBytes(t');
    assert s[64..] == AgeBytes(a) && s'[64..] == AgeBytes(a');
    assert TwosComplement64(t) == TwosComplement64(t') by {
      assert FromBE(TimestampBytes(t)) == FromBE(TimestampBytes(t'));
    }
    assert FromBE(AgeBytes(a)) == FromBE(AgeBytes(a'));
  }

  /** One signature covers one decision: the preimage determines its text and every bound field. */
  lemma DecisionPreimageInjective(x: Bytes, r: Ulid, w: Ulid, t: int, a: int, x': Bytes, r': Ulid, w': Ulid, t': int,
                                  a': int)
    requires I64(t) && U32(a) && I64(t') && U32(a')
    requires DecisionPreimage(x, r, w, t, a) == DecisionPreimage(x', r', w', t', a')
    ensures x == x' && r == r' && w == w' && t == t' && a == a'
  {
    hide Trailer;
    var s, s' := DecisionPreimage(x, r, w, t, a), DecisionPreimage(x', r', w', t', a');
    var n := |s| - 68;
    assert s[23..n] == x && s'[23..n] == x';
    assert s[n..] == Trailer(r, w, t, a) && s'[n..] == Trailer(r', w', t', a');
    TrailerInjective(r, w, t, a, r', w', t', a');
  }

  /** `sign_decision`; None when the clock does not fit. */
  method SignDecision(tools: Tools, key: Bytes, decision: Policy.Decision, requestId: Ulid, walletId: Ulid,
                      maxAge: int, clock: int)
    returns (r: Option<SignedPolicyDecision>)
    requires U32(maxAge)
    ensures r.Some? <==> I64(clock)
    ensures r.Some? ==> r.value == SignedBy(tools, key, decision, requestId, walletId, maxAge, clock)
  {
    if !I64(clock) {
      return None;
    }
    var preimage := BuildPreimage(tools, decision, requestId, walletId, clock, maxAge);
    var signature := tools.crypto.sign(key, preimage);
    return Some(SignedPolicyDecision(decision, requestId, walletId, preimage, signature, clock, maxAge));
  }

  function SignedBy(tools: Tools, key: Bytes, decision: Policy.Decision, requestId: Ulid, walletId: Ulid,
                    maxAge: int, at: int)
    : SignedPolicyDecision
    requires I64(at) && U32(maxAge)
  {
    var preimage := DecisionPreimage(tools.decisionJson(decision), requestId, walletId, at, maxAge);
    SignedPolicyDecision(decision, requestId, walletId, preimage, tools.crypto.sign(key, preimage), at, maxAge)
  }

  // ------------------------------------------------------------ hard ceilings

  datatype WalletCeilings = WalletCeilings(
    walletId: Ulid, maxValuePerTx: Option<nat>, contractAllowlist: seq<Bytes>, chainAllowlist: seq<nat>)

  datatype VerifyError =
    | TooManyApprovals
    | MissingPolicyDecision
    | RawPayloadMismatch
    | InvalidPolicyServiceSignature
    | RequestIdMismatch
    | WalletIdMismatch
    | DecisionFromTheFuture
    | DecisionStale
    | PolicyDeny
    | InvalidApproval(reason: string)
    | ApprovalSignerError
    | NotEnoughApprovals(provided: nat, threshold: byte)
    | ChainNotAllowed
    | TargetNotAllowed
    | ValueCapExceeded

  predicate EvmPayload(p: SigningPayload) {
    p.VmTransaction? && p.vm == VmType.Evm
  }

  predicate ChainMet(p: SigningPayload, wallet: WalletCeilings) {
    wallet.chainAllowlist != [] && p.VmTransaction? ==> p.chainId in wallet.chainAllowlist
  }

  predicate TargetMet(p: SigningPayload, wallet: WalletCeilings) {
    wallet.contractAllowlist != [] && EvmPayload(p) && p.to.Some? ==>
      |p.to.value| == 20 && p.to.value in wallet.contractAllowlist
  }

  predicate ValueMet(p: SigningPayload, wallet: WalletCeilings) {
    wallet.maxValuePerTx.Some? && EvmPayload(p) ==>
      Evm.DecodeEvmTx(p.raw).Ok? && Evm.DecodeEvmTx(p.raw).value.value <= wallet.maxValuePerTx.value
  }

  /** The wallet's limits, as a set of constraints on the payload. */
  predicate CeilingsMet(p: SigningPayload, wallet: WalletCeilings) {
    ChainMet(p, wallet) && TargetMet(p, wallet) && ValueMet(p, wallet)
  }

  function CeilingProblem(p: SigningPayload, wallet: WalletCeilings): VerifyError {
    if !ChainMet(p, wallet) then ChainNotAllowed
    else if !TargetMet(p, wallet) then TargetNotAllowed
    else if p.VmTransaction? && Evm.DecodeEvmTx(p.raw).Err? then
      InvalidApproval("could not decode EVM tx for ceiling check")
    else ValueCapExceeded
  }

  method CheckHardCeilings(p: SigningPayload, wallet: WalletCeilings) returns (error: Option<VerifyError>)
    ensures error == if CeilingsMet(p, wallet) then None else Some(CeilingProblem(p, wallet))
  {
    if wallet.chainAllowlist != [] && p.Chain().Some? && p.Chain().value !in wallet.chainAllowlist {
      return Some(ChainNotAllowed);
    }
    if wallet.contractAllowlist != [] && EvmPayload(p) && p.to.Some? {
      if |p.to.value| != 20 {
        return Some(TargetNotAllowed);
      }
      if p.to.value !in wallet.contractAllowlist {
        return Some(TargetNotAllowed);
      }
    }
    if wallet.maxValuePerTx.Some? && EvmPayload(p) {
      var decoded := Evm.DecodeEvmTx(p.raw);
      if decoded.Err? {
        return Some(InvalidApproval("could not decode EVM tx for ceiling check"));
      }
      if decoded.value.value > wallet.maxValuePerTx.value {
        return Some(ValueCapExceeded);
      }
    }
    return None;
  }

  /** Under a value cap, an EVM payload that passes is the canonical encoding of a transaction within the cap. */
  lemma CapMeansCanonical(p: SigningPayload, wallet: WalletCeilings) returns (e: Evm.Envelope)
    requires CeilingsMet(p, wallet) && wallet.maxValuePerTx.Some? && EvmPayload(p)
    ensures Evm.WellFormed(e) && p.raw == Evm.Encode(e) && e.value <= wallet.maxValuePerTx.value
  {
    hide Evm.DecodeEvmTx, Evm.Encode, Evm.WellFormed;
    e := Evm.SeenIsTransaction(p.raw);
    Evm.TransactionReadBack(e);
  }

  /** The raw bytes are a transaction that moves at most this much. */
  ghost predicate MovesAtMost(raw: Bytes, cap: nat) {
    exists e :: Evm.WellFormed(e) && raw == Evm.Encode(e) && e.value <= cap
  }

  /** The wallet's limits in the fields of the payload, and in those of the transaction its bytes encode. */
  lemma CeilingsExactly(p: SigningPayload, wallet: WalletCeilings)
    ensures CeilingsMet(p, wallet)
            <==> p.VmTransaction? ==>
                   && (wallet.chainAllowlist == [] || p.chainId in wallet.chainAllowlist)
                   && (p.vm.Evm? ==>
                         && (wallet.contractAllowlist == [] || p.to.None?
                             || (|p.to.value| == 20 && p.to.value in wallet.contractAllowlist))
                         && (wallet.maxValuePerTx.None? || MovesAtMost(p.raw, wallet.maxValuePerTx.value)))
  {
    hide Evm.DecodeEvmTx, Evm.Encode, Evm.WellFormed;
    if p.VmTransaction? && p.vm.Evm? && wallet.maxValuePerTx.Some? {
      if Evm.DecodeEvmTx(p.raw).Ok? {
        var e := Evm.SeenIsTransaction(p.raw);
        Evm.TransactionReadBack(e);
      }
      forall e | Evm.WellFormed(e) && p.raw == Evm.Encode(e)
        ensures Evm.DecodeEvmTx(p.raw).Ok? && Evm.DecodeEvmTx(p.raw).value.value == e.value
      {
        Evm.TransactionReadBack(e);
      }
    }
  }

  /** The recipient and the chain the raw bytes decode to are on the wallet's lists. */
  predicate DecodedWithin(tx: Evm.DecodedEvmTx, wallet: WalletCeilings) {
    && (wallet.contractAllowlist != [] && tx.to.Some? ==> tx.to.value in wallet.contractAllowlist)
    && (wallet.chainAllowlist != [] && tx.chainId.Some? ==> tx.chainId.value in wallet.chainAllowlist)
  }

  /** The payload names what its bytes decode to, or names a recipient of a length no list admits. */
  predicate NamesDecoded(p: SigningPayload, tx: Evm.DecodedEvmTx)
    requires p.VmTransaction?
  {
    && (tx.to.Some? ==> p.to == tx.to || (p.to.Some? && |p.to.value| != 20))
    && (tx.chainId.Some? ==> tx.chainId.value == p.chainId)
  }

  /** A wallet with these lists and no value cap. */
  function ListsOnly(id: Ulid, contracts: seq<Bytes>, chains: seq<nat>): WalletCeilings {
    WalletCeilings(id, None, contracts, chains)
  }

  /** Twenty bytes that are not the given ones. */
  function OtherAddress(a: Bytes): (b: Bytes)
    ensures |b| == 20 && b != a
  {
    if a == seq(20, _ => 0) then
      assert seq(20, _ => 1)[0] != seq(20, _ => 0)[0];
      seq(20, _ => 1)
    else seq(20, _ => 0)
  }

  /**
   The ceilings look at the recipient and chain the payload names, not at those its
   bytes decode to. Passing them puts the decoded ones on the lists, for every
   wallet, if and only if the payload names what its bytes decode to.
   */
  lemma DecodedWithinExactly(p: SigningPayload, tx: Evm.DecodedEvmTx, id: Ulid)
    requires EvmPayload(p) && Evm.DecodeEvmTx(p.raw).Ok? && Evm.DecodeEvmTx(p.raw).value == tx
    ensures (forall wallet :: CeilingsMet(p, wallet) ==> DecodedWithin(tx, wallet)) <==> NamesDecoded(p, tx)
  {
    hide Evm.DecodeEvmTx, OtherAddress;
    if !NamesDecoded(p, tx) {
      var contracts := if p.to.Some? then [p.to.value] else if tx.to.Some? then [OtherAddress(tx.to.value)] else [];
      var byTarget, byChain := ListsOnly(id, contracts, []), ListsOnly(id, [], [p.chainId]);
      assert CeilingsMet(p, byChain);
      if tx.to.Some? && p.to != tx.to && !(p.to.Some? && |p.to.value| != 20) {
        assert CeilingsMet(p, byTarget) && !DecodedWithin(tx, byTarget);
      } else {
        assert !DecodedWithin(tx, byChain);
      }
    }
  }

  /** Any signed transaction, in a payload that names no recipient: every contract list lets it pass. */
  lemma UnnamedRecipientPasses(tx: Anchor.TxRequest, sig: Anchor.Signature, listed: Bytes, id: Ulid)
    requires tx.Valid() && |sig.r| == 32 && |sig.s| == 32 && sig.recoveryId <= 3
    requires |listed| == 20 && listed != tx.to
    ensures Evm.WellFormed(Anchor.Signed(tx, sig))
    ensures var raw, wallet := Evm.Encode(Anchor.Signed(tx, sig)), ListsOnly(id, [listed], []);
            && CeilingsMet(VmTransaction(VmType.Evm, tx.chainId, None, raw), wallet)
            && Evm.DecodeEvmTx(raw).Ok? && Evm.DecodeEvmTx(raw).value.to == Some(tx.to)
            && !DecodedWithin(Evm.DecodeEvmTx(raw).value, wallet)
  {
    hide Evm.Encode, Evm.WellFormed, Evm.DecodeEvmTx, Anchor.Signed;
    Anchor.SignedReadBack(tx, sig);
  }

  // ------------------------------------------------------------ approvals

  function CanonicalMessage(tools: Tools, p: SigningPayload): Bytes {
    match p
    case Raw(bytes) => bytes
    case PersonalSign(bytes) => bytes
    case TypedData(json) => tools.crypto.json(json)
    case VmTransaction(_, _, _, raw) => raw
  }

  /** What is signed, and what approvers approve: the payload's own bytes, the raw transaction for a transaction. */
  ghost predicate IsMessage(tools: Tools, p: SigningPayload, message: Bytes) {
    && (p.Raw? || p.PersonalSign? ==> message == p.bytes)
    && (p.TypedData? ==> message == tools.crypto.json(p.json))
    && (p.VmTransaction? ==> message == p.raw)
  }

  lemma MessageExactly(tools: Tools, p: SigningPayload, message: Bytes)
    ensures message == CanonicalMessage(tools, p) <==> IsMessage(tools, p, message)
  {
  }

  /** An approval that approves two requests' messages: one request id, and one message or a hash collision. */
  lemma ApprovalBinds(tools: Tools, ap: SignedApproval, a: SigningRequest, b: SigningRequest, now: int, later: int,
                      message: Bytes, other: Bytes)
    requires I64(now) && I64(later) && I64(ap.timestampUnixMs)
    requires Approves(tools, ap, a, now) && Approves(tools, ap, b, later)
    requires IsMessage(tools, a.payload, message) && IsMessage(tools, b.payload, other)
    ensures a.requestId == b.requestId
    ensures message == other || Audit.Collision(tools.crypto, message, other)
  {
    hide ApprovalGood, CanonicalMessage;
    MessageExactly(tools, a.payload, message);
    MessageExactly(tools, b.payload, other);
    GoodNames(tools, ap, a, now);
    GoodNames(tools, ap, b, later);
  }

  lemma GoodNames(tools: Tools, ap: SignedApproval, request: SigningRequest, now: int)
    requires I64(now) && I64(ap.timestampUnixMs) && Approves(tools, ap, request, now)
    ensures ap.requestId == request.requestId
    ensures ap.messageHash == tools.crypto.hash(CanonicalMessage(tools, request.payload))
  {
    hide CanonicalMessage;
  }

  predicate TypedApprovals(approvals: seq<SignedApproval>) {
    forall i :: 0 <= i < |approvals| ==> I64(approvals[i].timestampUnixMs)
  }

  /** A supplied approval that approves this request's message, fresh and genuine. */
  predicate Approves(tools: Tools, ap: SignedApproval, request: SigningRequest, now: int)
    requires I64(now) && I64(ap.timestampUnixMs)
  {
    && ap.decision == Approve
    && ApprovalGood(tools.approvals, ap, request.requestId,
                    tools.crypto.hash(CanonicalMessage(tools, request.payload)), now)
  }

  /** Approval i is the first that does not approve. */
  predicate FirstBad(tools: Tools, approvals: seq<SignedApproval>, request: SigningRequest, now: int, i: nat)
    requires I64(now) && TypedApprovals(approvals) && i < |approvals|
  {
    && !Approves(tools, approvals[i], request, now)
    && forall j :: 0 <= j < i ==> Approves(tools, approvals[j], request, now)
  }

  predicate AllApprove(tools: Tools, approvals: seq<SignedApproval>, request: SigningRequest, now: int)
    requires I64(now) && TypedApprovals(approvals)
  {
    forall i :: 0 <= i < |approvals| ==> Approves(tools, approvals[i], request, now)
  }

  /** The first thing wrong with a supplied approval. */
  function VoteProblem(ap: SignedApproval, request: SigningRequest, expected: Hash, now: int): VerifyError {
    match ApprovalProblem(ap, request.requestId, expected, now)
    case WrongRequest => InvalidApproval("wrong request_id")
    case WrongMessage => InvalidApproval("wrong message_hash")
    case FromTheFuture => InvalidApproval("approval timestamp is in the future")
    case Stale => InvalidApproval("approval is stale")
    case Signer => if ap.decision == Reject then InvalidApproval("approver rejected") else ApprovalSignerError
  }

  /** `u8::saturating_add(1)`. */
  function SaturatingIncrement(n: byte): byte {
    if n == 255 then 255 else n + 1
  }

  method CheckApproval(tools: Tools, ap: SignedApproval, request: SigningRequest, expected: Hash, now: int)
    returns (error: Option<VerifyError>)
    requires I64(now) && I64(ap.timestampUnixMs)
    requires expected == tools.crypto.hash(CanonicalMessage(tools, request.payload))
    ensures error == if Approves(tools, ap, request, now) then None else Some(VoteProblem(ap, request, expected, now))
  {
    hide Layout, CanonicalMessage;
    ApprovalAgeExactly(now, ap.timestampUnixMs, MAX_APPROVAL_AGE_SECS);
    if ap.requestId != request.requestId {
      return Some(InvalidApproval("wrong request_id"));
    }
    if ap.messageHash != expected {
      return Some(InvalidApproval("wrong message_hash"));
    }
    var ageMs := SaturatingSub(now, ap.timestampUnixMs);
    if ageMs < 0 {
      return Some(InvalidApproval("approval timestamp is in the future"));
    }
    if ageMs / 1000 > MAX_APPROVAL_AGE_SECS {
      return Some(InvalidApproval("approval is stale"));
    }
    if ap.decision == Reject {
      return Some(InvalidApproval("approver rejected"));
    }
    var preimage := EnclavePreimage(ap);
    if !tools.approvals(ap.scheme, ap.publicKey, preimage, ap.signature) {
      return Some(ApprovalSignerError);
    }
    return None;
  }

  /** A shortage of good approvals, or the problem of the first bad one, is what gets reported. */
  ghost predicate VotesReported(tools: Tools, approvals: seq<SignedApproval>, request: SigningRequest, threshold: byte,
                                now: int, error: Option<VerifyError>)
    requires I64(now) && TypedApprovals(approvals)
  {
    && (AllApprove(tools, approvals, request, now) && |approvals| < threshold ==>
          error == Some(NotEnoughApprovals(|approvals|, threshold)))
    && (!AllApprove(tools, approvals, request, now) ==>
          exists i :: 0 <= i < |approvals| && FirstBad(tools, approvals, request, now, i)
                      && error == Some(VoteProblem(approvals[i], request,
                                                   tools.crypto.hash(CanonicalMessage(tools, request.payload)), now)))
  }

  method CheckApprovals(tools: Tools, approvals: seq<SignedApproval>, request: SigningRequest, threshold: byte,
                        now: int)
    returns (error: Option<VerifyError>)
    requires I64(now) && TypedApprovals(approvals) && |approvals| <= MAX_APPROVALS
    ensures error.None? <==> AllApprove(tools, approvals, request, now) && |approvals| >= threshold
    ensures VotesReported(tools, approvals, request, threshold, now, error)
  {
    hide Approves, CanonicalMessage;
    var expected := tools.crypto.hash(CanonicalMessage(tools, request.payload));
    var valid: byte := 0;
    for i := 0 to |approvals|
      invariant valid == i
      invariant forall j :: 0 <= j < i ==> Approves(tools, approvals[j], request, now)
    {
      var problem := CheckApproval(tools, approvals[i], request, expected, now);
      if problem.Some? {
        assert FirstBad(tools, approvals, request, now, i);
        return problem;
      }
      valid := SaturatingIncrement(valid);
    }
    if valid < threshold {
      return Some(NotEnoughApprovals(valid, threshold));
    }
    return None;
  }

  // ------------------------------------------------------------ whose approvals they are

  /** The key an approval is signed with. */
  function ApproverKey(ap: SignedApproval): (SigningScheme, Bytes) {
    (ap.scheme, ap.publicKey)
  }

  function ApproverKeys(approvals: seq<SignedApproval>): set<(SigningScheme, Bytes)> {
    set i | 0 <= i < |approvals| :: ApproverKey(approvals[i])
  }

  /** One approval, repeated: it is counted once per copy. */
  lemma CopiesCount(tools: Tools, ap: SignedApproval, copies: nat, request: SigningRequest, threshold: byte, now: int)
    requires I64(now) && I64(ap.timestampUnixMs) && Approves(tools, ap, request, now)
    requires 0 < threshold <= copies <= MAX_APPROVALS
    ensures var approvals := seq(copies, _ => ap);
            && AllApprove(tools, approvals, request, now) && |approvals| >= threshold
            && |ApproverKeys(approvals)| == 1
  {
    hide Approves;
    var approvals := seq(copies, _ => ap);
    assert approvals[0] == ap;
    assert ApproverKeys(approvals) == {ApproverKey(ap)} by {
      forall k ensures k in ApproverKeys(approvals) <==> k == ApproverKey(ap) {
        assert ApproverKey(approvals[0]) == ApproverKey(ap);
      }
    }
  }

  /** Approvals the verifier counts as a quorum of this threshold. */
  ghost predicate Counted(tools: Tools, approvals: seq<SignedApproval>, request: SigningRequest, threshold: byte,
                          now: int)
    requires I64(now)
  {
    && TypedApprovals(approvals) && |approvals| <= MAX_APPROVALS
    && AllApprove(tools, approvals, request, now) && |approvals| >= threshold
  }

  ghost predicate SomeoneApproves(tools: Tools, request: SigningRequest, now: int)
    requires I64(now)
  {
    exists ap: SignedApproval :: I64(ap.timestampUnixMs) && Approves(tools, ap, request, now)
  }

  /** At least one approval names at least one key. */
  lemma SomeKey(approvals: seq<SignedApproval>)
    requires approvals != []
    ensures |ApproverKeys(approvals)| >= 1
  {
    assert ApproverKey(approvals[0]) in ApproverKeys(approvals);
  }

  /**
   Every counted quorum comes from threshold many different keys if and only if the
   threshold is at most one, or beyond what a call may carry, or nobody approves:
   the verifier counts approvals, not approvers.
   */
  lemma DistinctApproversExactly(tools: Tools, request: SigningRequest, threshold: byte, now: int)
    requires I64(now)
    ensures (forall approvals: seq<SignedApproval> ::
               Counted(tools, approvals, request, threshold, now) ==> |ApproverKeys(approvals)| >= threshold)
            <==> threshold <= 1 || threshold > MAX_APPROVALS || !SomeoneApproves(tools, request, now)
  {
    hide Approves, ApproverKeys;
    if threshold <= 1 || threshold > MAX_APPROVALS || !SomeoneApproves(tools, request, now) {
      forall approvals: seq<SignedApproval> | Counted(tools, approvals, request, threshold, now)
          ensures |ApproverKeys(approvals)| >= threshold {
        if approvals != [] {
          SomeKey(approvals);
          assert SomeoneApproves(tools, request, now) by {
            assert I64(approvals[0].timestampUnixMs) && Approves(tools, approvals[0], request, now);
          }
        }
      }
    } else {
      var ap: SignedApproval :| I64(ap.timestampUnixMs) && Approves(tools, ap, request, now);
      CopiesCount(tools, ap, threshold, request, threshold, now);
      assert Counted(tools, seq(threshold, _ => ap), request, threshold, now);
    }
  }

  // ------------------------------------------------------------ the verifier

  /** `verify_ed25519`: key and signature lengths, a well-formed key, then the signature. */
  predicate PolicySignatureGood(tools: Tools, key: Bytes, payload: Bytes, signature: Bytes) {
    |key| == 32 && tools.crypto.validKey(key) && |signature| == 64 && tools.crypto.verify(key, payload, signature)
  }

  predicate Fresh(signed: SignedPolicyDecision, now: int) {
    var maxAge := if signed.maxAgeSecs <= MAX_DECISION_AGE_SECS then signed.maxAgeSecs else MAX_DECISION_AGE_SECS;
    0 <= now - signed.signedAtUnixMs < 1000 * (maxAge + 1)
  }

  function Canonical(tools: Tools, signed: SignedPolicyDecision): Bytes
    requires signed.Typed()
  {
    DecisionPreimage(tools.decisionJson(signed.decision), signed.requestId, signed.walletId,
                     signed.signedAtUnixMs, signed.maxAgeSecs)
  }

  /** The signed decision is canonical, genuine, for this request and wallet, and fresh. */
  predicate DecisionBinds(tools: Tools, key: Bytes, signed: SignedPolicyDecision, request: SigningRequest,
                          wallet: WalletCeilings, now: int)
    requires signed.Typed()
  {
    && signed.rawPayload == Canonical(tools, signed)
    && PolicySignatureGood(tools, key, signed.rawPayload, signed.signature)
    && signed.requestId == request.requestId && signed.walletId == wallet.walletId
    && Fresh(signed, now)
  }

  /** The first of these that fails, in exact integers. */
  function BindingProblem(tools: Tools, key: Bytes, signed: SignedPolicyDecision, request: SigningRequest,
                          wallet: WalletCeilings, now: int): VerifyError
    requires signed.Typed()
  {
    if signed.rawPayload != Canonical(tools, signed) then RawPayloadMismatch
    else if !PolicySignatureGood(tools, key, signed.rawPayload, signed.signature) then InvalidPolicyServiceSignature
    else if signed.requestId != request.requestId then RequestIdMismatch
    else if signed.walletId != wallet.walletId then WalletIdMismatch
    else if now < signed.signedAtUnixMs then DecisionFromTheFuture
    else DecisionStale
  }

  /** What the decision permits, given the approvals that came with it. */
  predicate DecisionPermits(tools: Tools, decision: Policy.Decision, approvals: seq<SignedApproval>,
                            request: SigningRequest, now: int)
    requires I64(now) && TypedApprovals(approvals)
  {
    match decision
    case Allow(_) => true
    case Deny(_, _) => false
    case Quorum(threshold, _, _, _) => AllApprove(tools, approvals, request, now) && |approvals| >= threshold
  }

  /** The whole specification of the verifier, in exact integers. */
  predicate Accepts(tools: Tools, key: Bytes, required: bool, signed: Option<SignedPolicyDecision>,
                    approvals: seq<SignedApproval>, request: SigningRequest, wallet: WalletCeilings, now: int)
    requires I64(now) && TypedApprovals(approvals) && (signed.Some? ==> signed.value.Typed())
  {
    && |approvals| <= MAX_APPROVALS
    && CeilingsMet(request.payload, wallet)
    && match signed
       case None => !required
       case Some(s) =>
         && DecisionBinds(tools, key, s, request, wallet, now)
         && DecisionPermits(tools, s.decision, approvals, request, now)
  }

  /** Steps 2 to 5: canonical form, signature, binding and freshness. */
  method CheckBinding(tools: Tools, key: Bytes, signed: SignedPolicyDecision, request: SigningRequest,
                      wallet: WalletCeilings, now: int) returns (error: Option<VerifyError>)
    requires I64(now) && signed.Typed()
    ensures error == if DecisionBinds(tools, key, signed, request, wallet, now) then None
                     else Some(BindingProblem(tools, key, signed, request, wallet, now))
  {
    hide Trailer;
    var canonical := BuildPreimage(tools, signed.decision, signed.requestId, signed.walletId, signed.signedAtUnixMs,
                                   signed.maxAgeSecs);
    if canonical != signed.rawPayload {
      return Some(RawPayloadMismatch);
    }
    if !(POLICY_DECISION_DOMAIN <= signed.rawPayload) {
      return Some(RawPayloadMismatch);
    }
    if !PolicySignatureGood(tools, key, signed.rawPayload, signed.signature) {
      return Some(InvalidPolicyServiceSignature);
    }
    if signed.requestId != request.requestId {
      return Some(RequestIdMismatch);
    }
    if signed.walletId != wallet.walletId {
      return Some(WalletIdMismatch);
    }
    var effectiveMax := if signed.maxAgeSecs <= MAX_DECISION_AGE_SECS then signed.maxAgeSecs else MAX_DECISION_AGE_SECS;
    DecisionAgeExactly(now, signed.signedAtUnixMs, effectiveMax);
    var ageMs := SaturatingSub(now, signed.signedAtUnixMs);
    if ageMs < 0 {
      return Some(DecisionFromTheFuture);
    }
    var ageSecs := ToU32OrMax(ageMs / 1000);
    if ageSecs > effectiveMax {
      return Some(DecisionStale);
    }
    return None;
  }

  /** `verify` accepts exactly what the specification does, for every machine value of its inputs. */
  method Verify(tools: Tools, key: Bytes, required: bool, signed: Option<SignedPolicyDecision>,
                approvals: seq<SignedApproval>, request: SigningRequest, wallet: WalletCeilings, now: int)
    returns (error: Option<VerifyError>)
    requires I64(now) && TypedApprovals(approvals) && (signed.Some? ==> signed.value.Typed())
    ensures error.None? <==> Accepts(tools, key, required, signed, approvals, request, wallet, now)
    ensures |approvals| > MAX_APPROVALS ==> error == Some(TooManyApprovals)
    ensures |approvals| <= MAX_APPROVALS && signed.None? && required ==> error == Some(MissingPolicyDecision)
    ensures |approvals| <= MAX_APPROVALS && signed.Some?
            && !DecisionBinds(tools, key, signed.value, request, wallet, now)
            ==> error == Some(BindingProblem(tools, key, signed.value, request, wallet, now))
    ensures |approvals| <= MAX_APPROVALS && signed.Some?
            && DecisionBinds(tools, key, signed.value, request, wallet, now)
            && signed.value.decision.Deny?
            ==> error == Some(PolicyDeny)
    ensures |approvals| <= MAX_APPROVALS && signed.Some?
            && DecisionBinds(tools, key, signed.value, request, wallet, now)
            && signed.value.decision.Quorum?
            ==> VotesReported(tools, approvals, request, signed.value.decision.threshold, now, error)
    ensures |approvals| <= MAX_APPROVALS && !CeilingsMet(request.payload, wallet)
            && (if signed.None? then !required
                else DecisionBinds(tools, key, signed.value, request, wallet, now)
                     && DecisionPermits(tools, signed.value.decision, approvals, request, now))
            ==> error == Some(CeilingProblem(request.payload, wallet))
  {
    hide DecisionBinds, CeilingsMet, FirstBad, VoteProblem, Approves, BindingProblem, CeilingProblem;
    if |approvals| > MAX_APPROVALS {
      return Some(TooManyApprovals);
    }
    if signed.None? {
      if required {
        return Some(MissingPolicyDecision);
      }
      error := CheckHardCeilings(request.payload, wallet);
      return;
    }
    error := CheckBinding(tools, key, signed.value, request, wallet, now);
    if error.Some? {
      return;
    }
    match signed.value.decision {
      case Deny(_, _) => return Some(PolicyDeny);
      case Quorum(threshold, _, _, _) =>
        error := CheckApprovals(tools, approvals, request, threshold, now);
        if error.Some? {
          return;
        }
      case Allow(_) =>
    }
    error := CheckHardCeilings(request.payload, wallet);
  }

  /**
   What the policy service signs, the enclave accepts: under the pinned key, for the
   same request and wallet, within its age, whatever the decision allows passes.
   */
  lemma SignedDecisionsAccepted(tools: Tools, key: Bytes, required: bool, decision: Policy.Decision, maxAge: int,
                                at: int,
                                approvals: seq<SignedApproval>, request: SigningRequest, wallet: WalletCeilings,
                                    now: int)
    requires Audit.SignsAndVerifies(tools.crypto, key)
    requires I64(now) && I64(at) && U32(maxAge) && TypedApprovals(approvals) && |approvals| <= MAX_APPROVALS
    ensures var signed := SignedBy(tools, key, decision, request.requestId, wallet.walletId, maxAge, at);
            Accepts(tools, tools.crypto.publicKey(key), required, Some(signed), approvals, request, wallet, now)
            <==> Fresh(signed, now) && DecisionPermits(tools, decision, approvals, request, now)
                 && CeilingsMet(request.payload, wallet)
  {
    hide DecisionPreimage, DecisionPermits, CeilingsMet, Fresh;
    var signed := SignedBy(tools, key, decision, request.requestId, wallet.walletId, maxAge, at);
    assert signed.signature == tools.crypto.sign(key, signed.rawPayload);
  }

  // ------------------------------------------------------------ the same, in raw fields

  /** The bytes a decision's signature covers. */
  function SignedBytes(tools: Tools, s: SignedPolicyDecision): Bytes
    requires s.Typed()
  {
    AsciiOf("qfc-policy-decision-v1") + [0] + tools.decisionJson(s.decision) + [0] + s.requestId + [0] + s.walletId
    + [0] + ToBE8(TwosComplement64(s.signedAtUnixMs)) + [0] + ToBE4(s.maxAgeSecs)
  }

  /** A good vote for the request: an approval, of this message, at most an hour old, genuine. */
  ghost predicate GoodVote(tools: Tools, ap: SignedApproval, request: SigningRequest, message: Bytes, now: int)
    requires I64(ap.timestampUnixMs)
  {
    && ap.decision == Approve && ap.requestId == request.requestId && ap.messageHash == tools.crypto.hash(message)
    && ap.timestampUnixMs <= now && (now - ap.timestampUnixMs) / 1000 <= 3600
    && tools.approvals(ap.scheme, ap.publicKey,
                       ap.approvalId + AsciiOf("|") + ap.requestId + AsciiOf("|") + ap.messageHash + AsciiOf("|")
                       + [0x01] + AsciiOf("|") + ToBE8(TwosComplement64(ap.timestampUnixMs)),
                       ap.signature)
  }

  /** A decision in force: canonical, signed by the pinned key, for this request and wallet, and not too old. */
  ghost predicate InForce(tools: Tools, key: Bytes, s: SignedPolicyDecision, request: SigningRequest,
                          wallet: WalletCeilings, now: int)
    requires s.Typed()
  {
    && s.rawPayload == SignedBytes(tools, s)
    && |key| == 32 && tools.crypto.validKey(key) && |s.signature| == 64
    && tools.crypto.verify(key, s.rawPayload, s.signature)
    && s.requestId == request.requestId && s.walletId == wallet.walletId
    && s.signedAtUnixMs <= now
    && (now - s.signedAtUnixMs) / 1000 <= s.maxAgeSecs && (now - s.signedAtUnixMs) / 1000 <= 86400
  }

  lemma VoteExactly(tools: Tools, ap: SignedApproval, request: SigningRequest, message: Bytes, now: int)
    requires I64(now) && I64(ap.timestampUnixMs) && IsMessage(tools, request.payload, message)
    ensures Approves(tools, ap, request, now) <==> GoodVote(tools, ap, request, message, now)
  {
    hide CanonicalMessage, TwosComplement64, ToBE, FromBE, IsMessage;
    MessageExactly(tools, request.payload, message);
    assert AsciiOf("|") == [BAR];
    if ap.decision == Approve {
      assert ap.Preimage()
          == ap.approvalId + AsciiOf("|") + ap.requestId + AsciiOf("|") + ap.messageHash + AsciiOf("|") + [0x01]
             + AsciiOf("|") + ToBE8(TwosComplement64(ap.timestampUnixMs));
    }
  }

  lemma DomainText()
    ensures POLICY_DECISION_DOMAIN == AsciiOf("qfc-policy-decision-v1")
  {
    var text := AsciiOf("qfc-policy-decision-v1");
    forall i | 0 <= i < 22 ensures text[i] == POLICY_DECISION_DOMAIN[i] {
    }
  }

  lemma CanonicalBytes(tools: Tools, s: SignedPolicyDecision)
    requires s.Typed()
    ensures Canonical(tools, s) == SignedBytes(tools, s)
  {
    hide ToBE, FromBE, TwosComplement64;
    DomainText();
    hide AsciiOf;
    var front := POLICY_DECISION_DOMAIN + [0] + tools.decisionJson(s.decision);
    assert Canonical(tools, s) == front + Trailer(s.requestId, s.walletId, s.signedAtUnixMs, s.maxAgeSecs);
  }

  lemma InForceExactly(tools: Tools, key: Bytes, s: SignedPolicyDecision, request: SigningRequest,
                       wallet: WalletCeilings, now: int)
    requires s.Typed()
    ensures DecisionBinds(tools, key, s, request, wallet, now) <==> InForce(tools, key, s, request, wallet, now)
  {
    hide Canonical, SignedBytes;
    CanonicalBytes(tools, s);
  }

  /**
   The enclave lets a call pass if and only if it carries at most 64 approvals, the
   payload keeps the wallet's limits, and either no decision is there nor required, or a
   decision in force allows the request or finds enough votes, all of them good.
   */
  lemma AcceptsByFields(tools: Tools, key: Bytes, required: bool, signed: Option<SignedPolicyDecision>,
                        approvals: seq<SignedApproval>, request: SigningRequest, wallet: WalletCeilings, now: int,
                        message: Bytes)
    requires I64(now) && TypedApprovals(approvals) && (signed.Some? ==> signed.value.Typed())
    requires IsMessage(tools, request.payload, message)
    ensures Accepts(tools, key, required, signed, approvals, request, wallet, now)
            <==> && |approvals| <= 64 && CeilingsMet(request.payload, wallet)
                 && (signed.None? ==> !required)
                 && (signed.Some? ==>
                       && InForce(tools, key, signed.value, request, wallet, now)
                       && (signed.value.decision.Allow?
                           || (signed.value.decision.Quorum?
                               && |approvals| >= signed.value.decision.threshold
                               && forall i :: 0 <= i < |approvals| ==>
                                                GoodVote(tools, approvals[i], request, message, now))))
  {
    hide DecisionBinds, InForce, Approves, GoodVote, CeilingsMet, IsMessage;
    if signed.Some? { InForceExactly(tools, key, signed.value, request, wallet, now); }
    forall i | 0 <= i < |approvals|
      ensures Approves(tools, approvals[i], request, now) <==> GoodVote(tools, approvals[i], request, message, now)
    {
      VoteExactly(tools, approvals[i], request, message, now);
    }
  }
}
