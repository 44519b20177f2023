/**
 Wallet creation and signing without the policy layer: the in-enclave key handling
 (crates/qfc-enclave/src/enclaves/mock.rs), the share store it feeds
 (crates/qfc-sss/src/store.rs) and the two service calls that join them
 (crates/qfc-server-wallet/src/service.rs).
 */
module WalletService {
  import opened Bytes
  import opened Outcomes
  import opened PrimeField
  import opened WalletTypes
  import opened Shamir
  import Hd = HdPath

  const ML_DSA_SEED_BYTES := 32
  const CLASSICAL_SEED_BYTES := 64

  datatype EnclaveError =
    | TooFewShares(threshold: byte, provided: nat)
    | SharesDisagree(reason: string)
    | InvalidRequest(reason: string)
    | SchemeNotHd
    | DerivationFailed
    | Sss(cause: ShareError)
    | SignerFailed
    | PolicyRefused

  datatype ServiceError =
    | Enclave(cause: EnclaveError)
    | StoreFailed
    | AuditFailed
    | InsufficientShares(have: nat, need: byte)
    | WalletNotFound
    | Stopped

  /** Key derivation, public keys and signatures of the six schemes; None is a library error. */
  datatype Signers = Signers(
    derive: (SigningScheme, Bytes, Hd.Path) -> Option<Bytes>,
    publicKey: (SigningScheme, Bytes) -> Option<Bytes>,
    sign: (SigningScheme, Bytes, Bytes) -> Option<Bytes>)

  // ------------------------------------------------------------ in the enclave

  function DeriveSigningKey(signers: Signers, scheme: SigningScheme, seed: Bytes, path: Option<Hd.Path>)
    : (r: Outcome<Bytes, EnclaveError>)
    ensures !r.Panic?
    ensures path.None? ==> if |seed| >= 32 then r == Ok(seed[..32]) else r.Err? && r.error.InvalidRequest?
    ensures path.Some? && scheme.IsPostQuantum() ==> r == Err(SchemeNotHd)
    ensures path.Some? && !scheme.IsPostQuantum() ==>
              var key := signers.derive(scheme, seed, path.value);
              if key.Some? then r == Ok(key.value) else r == Err(DerivationFailed)
  {
    if !scheme.IsPostQuantum() then
      match path
      case None =>
        if |seed| < 32 then Err(InvalidRequest("seed too short for classical scheme")) else Ok(seed[..32])
      case Some(p) =>
        var key := signers.derive(scheme, seed, p);
        if key.None? then Err(DerivationFailed) else Ok(key.value)
    else if path.Some? then Err(SchemeNotHd)
    else if |seed| < ML_DSA_SEED_BYTES then Err(InvalidRequest("seed too short for ML-DSA (need 32 bytes)"))
    else Ok(seed[..ML_DSA_SEED_BYTES])
  }

  function ShareParamsError(shares: seq<Share>): Option<EnclaveError> {
    if shares == [] then Some(TooFewShares(1, 0))
    else if |shares| < shares[0].params.threshold then Some(TooFewShares(shares[0].params.threshold, |shares|))
    else if !SameParams(shares) then Some(SharesDisagree("parameters mismatch"))
    else if !Distinct(Indices(shares)) then Some(SharesDisagree("duplicate share indices"))
    else None
  }

  method CheckShareParams(shares: seq<Share>) returns (problem: Option<EnclaveError>)
    ensures problem == ShareParamsError(shares)
  {
    if shares == [] {
      return Some(TooFewShares(1, 0));
    }
    var params := shares[0].params;
    if |shares| < params.threshold {
      return Some(TooFewShares(params.threshold, |shares|));
    }
    if exists i :: 0 <= i < |shares| && shares[i].params != params {
      return Some(SharesDisagree("parameters mismatch"));
    }
    var kept := SortAndDedup(Indices(shares));
    if |kept| != |shares| {
      return Some(SharesDisagree("duplicate share indices"));
    }
    return None;
  }

  datatype Response = Response(signature: Bytes, publicKey: Bytes)

  /** The enclave's answer to a signing request, after any policy check it runs first. */
  function EnclaveSigned(F: Field, signers: Signers, refused: bool, shares: seq<Share>, scheme: SigningScheme,
                         path: Option<Hd.Path>, message: Bytes): Outcome<Response, EnclaveError>
    requires 0 < F.p <= Pow256(32)
  {
    if refused then Err(PolicyRefused)
    else if ShareParamsError(shares).Some? then Err(ShareParamsError(shares).value)
    else
      match Combined(F, shares)
      case Panic => Panic
      case Err(e) => Err(Sss(e))
      case Ok(seed) => KeySigned(signers, scheme, seed, path, message)
  }

  function KeySigned(signers: Signers, scheme: SigningScheme, seed: Bytes, path: Option<Hd.Path>, message: Bytes)
    : Outcome<Response, EnclaveError>
  {
    match DeriveSigningKey(signers, scheme, seed, path)
    case Panic => Panic
    case Err(e) => Err(e)
    case Ok(key) =>
      var public := signers.publicKey(scheme, key);
      var signature := signers.sign(scheme, key, message);
      if public.None? || signature.None? then Err(SignerFailed) else Ok(Response(signature.value, public.value))
  }

  /** The key a request signs with: the head of the seed, or what a classical scheme derives at the path. */
  ghost predicate WorkingKey(signers: Signers, scheme: SigningScheme, seed: Bytes, path: Option<Hd.Path>, key: Bytes) {
    if path.None? then |seed| >= 32 && key == seed[..32]
    else
      && scheme in {Ed25519, Secp256k1, Secp256k1Recoverable}
      && signers.derive(scheme, seed, path.value) == Some(key)
  }

  /** The response holds the key's public key and its signature over the message. */
  ghost predicate SignedWith(signers: Signers, scheme: SigningScheme, key: Bytes, message: Bytes, r: Response) {
    signers.publicKey(scheme, key) == Some(r.publicKey) && signers.sign(scheme, key, message) == Some(r.signature)
  }

  /** The enclave answers with a response if and only if the working key signed the message. */
  lemma SignedExactly(signers: Signers, scheme: SigningScheme, seed: Bytes, path: Option<Hd.Path>, message: Bytes,
                      r: Response)
    ensures KeySigned(signers, scheme, seed, path, message) == Ok(r)
            <==> exists key ::
                   WorkingKey(signers, scheme, seed, path, key) && SignedWith(signers, scheme, key, message, r)
  {
    var key := DeriveSigningKey(signers, scheme, seed, path);
    if key.Ok? {
      assert WorkingKey(signers, scheme, seed, path, key.value);
    }
    forall k | WorkingKey(signers, scheme, seed, path, k) ensures key == Ok(k) {
    }
  }

  method SignInEnclave(F: Field, signers: Signers, refused: bool, shares: seq<Share>, scheme: SigningScheme,
                       path: Option<Hd.Path>, message: Bytes) returns (r: Outcome<Response, EnclaveError>)
    requires 0 < F.p <= Pow256(32)
    ensures r == EnclaveSigned(F, signers, refused, shares, scheme, path, message)
  {
    hide Combined, ShareParamsError, DeriveSigningKey, Pow256;
    if refused {
      return Err(PolicyRefused);
    }
    var problem := CheckShareParams(shares);
    if problem.Some? {
      return Err(problem.value);
    }
    var combined := CombineShares(F, shares);
    match combined {
      case Panic => return Panic;
      case Err(e) => return Err(Sss(e));
      case Ok(seed) =>
        var key := DeriveSigningKey(signers, scheme, seed, path);
        if !key.Ok? {
          return if key.Panic? then Panic else Err(key.error);
        }
        var public := signers.publicKey(scheme, key.value);
        if public.None? {
          return Err(SignerFailed);
        }
        var signature := signers.sign(scheme, key.value, message);
        if signature.None? {
          return Err(SignerFailed);
        }
        return Ok(Response(signature.value, public.value));
    }
  }

  datatype WalletConfig = WalletConfig(scheme: SigningScheme, threshold: byte, total: byte)

  /** The random draws behind one wallet: seed bytes, then polynomial coefficients. */
  datatype Entropy = Entropy(seed: nat -> byte, draws: Draws)

  function Seed(scheme: SigningScheme, entropy: Entropy): (seed: Bytes)
    ensures |seed| >= 32
  {
    var n := if scheme.IsPostQuantum() then ML_DSA_SEED_BYTES else CLASSICAL_SEED_BYTES;
    seq<byte>(n, entropy.seed)
  }

  function DealOf(F: Field, config: WalletConfig, entropy: Entropy): Deal {
    Deal(F, Params(config.threshold, config.total), Seed(config.scheme, entropy), entropy.draws)
  }

  /** The public key reported for a seed at a path. */
  function ReportedKey(signers: Signers, scheme: SigningScheme, seed: Bytes, path: Option<Hd.Path>)
    : Outcome<Bytes, EnclaveError>
  {
    match DeriveSigningKey(signers, scheme, seed, path)
    case Panic => Panic
    case Err(e) => Err(e)
    case Ok(key) =>
      var public := signers.publicKey(scheme, key);
      if public.None? then Err(SignerFailed) else Ok(public.value)
  }

  function GenerateError(signers: Signers, config: WalletConfig, path: Option<Hd.Path>, entropy: Entropy)
    : Option<EnclaveError>
  {
    if config.threshold < 2 || config.threshold > config.total then
      Some(InvalidRequest("invalid (threshold, total)"))
    else if config.scheme.IsPostQuantum() && path.Some? then Some(SchemeNotHd)
    else
      var key := ReportedKey(signers, config.scheme, Seed(config.scheme, entropy), path);
      if key.Err? then Some(key.error) else None
  }

  method GenerateWallet(F: Field, signers: Signers, config: WalletConfig, path: Option<Hd.Path>, entropy: Entropy)
    returns (r: Outcome<(seq<Share>, Bytes), EnclaveError>)
    requires ScalarField(F)
    ensures var e := GenerateError(signers, config, path, entropy);
            var deal := DealOf(F, config, entropy);
            if e.Some? then r == Err(e.value)
            else
              && deal.Valid() && r.Ok?
              && ReportedKey(signers, config.scheme, deal.secret, path) == Ok(r.value.1)
              && IsDealt(r.value.0, deal)
  {
    hide FromBE, Pow256, IsField, Deal.ShareOf;
    if config.threshold < 2 || config.threshold > config.total {
      return Err(InvalidRequest("invalid (threshold, total)"));
    }
    if config.scheme.IsPostQuantum() && path.Some? {
      return Err(SchemeNotHd);
    }
    var seed := Seed(config.scheme, entropy);
    var key := DeriveSigningKey(signers, config.scheme, seed, path);
    if key.Err? {
      return Err(key.error);
    }
    var public := signers.publicKey(config.scheme, key.value);
    if public.None? {
      return Err(SignerFailed);
    }
    var shares := SplitSecret(F, seed, Params(config.threshold, config.total), entropy.draws);
    return Ok((shares.value, public.value));
  }

  /** `shares` are all shares of the deal, in index order. */
  ghost predicate IsDealt(shares: seq<Share>, deal: Deal)
    requires deal.Valid()
  {
    |shares| == deal.params.total && forall i :: 0 <= i < |shares| ==> shares[i] == deal.ShareOf(i + 1)
  }

  // ------------------------------------------------------------ what is kept about each wallet

  datatype WalletStatus = Active | Revoked

  datatype WalletRecord = WalletRecord(config: WalletConfig, masterPublicKey: Bytes, status: WalletStatus)

  type Shares = map<(Ulid, byte), Share>

  /** Every stored share is one the wallet's deal handed out under that index. */
  ghost predicate SharesGenuine(F: Field, shares: Shares, deals: map<Ulid, Deal>) {
    forall k :: k in shares ==> Genuine(F, k, shares[k], deals)
  }

  ghost predicate Genuine(F: Field, k: (Ulid, byte), share: Share, deals: map<Ulid, Deal>) {
    && k.0 in deals && deals[k.0].Valid() && deals[k.0].F == F
    && 1 <= k.1 <= deals[k.0].params.total && share == deals[k.0].ShareOf(k.1)
  }

  /** A recorded wallet names its deal's threshold and its deal's public key. */
  ghost predicate RecordTrue(F: Field, signers: Signers, record: WalletRecord, deal: Deal) {
    && deal.Valid() && deal.F == F && |deal.secret| >= 32
    && record.config.threshold == deal.params.threshold && record.config.total == deal.params.total
    && ReportedKey(signers, record.config.scheme, deal.secret, None) == Ok(record.masterPublicKey)
  }

  ghost predicate RecordsTrue(F: Field, signers: Signers, wallets: map<Ulid, WalletRecord>, deals: map<Ulid, Deal>) {
    forall w :: w in wallets ==> w in deals && RecordTrue(F, signers, wallets[w], deals[w])
  }

  /** The indices stored for a wallet. */
  function IndicesOf(shares: Shares, w: Ulid): set<byte> {
    set k | k in shares && k.0 == w :: k.1
  }

  /** `list`: the indices stored for a wallet, ascending. */
  method ListShares(shares: Shares, w: Ulid) returns (ids: seq<byte>)
    ensures StrictlyAscending(ids) && Elements(ids) == IndicesOf(shares, w)
  {
    ids := [];
    for i := 0 to 256
      invariant StrictlyAscending(ids) && forall j :: 0 <= j < |ids| ==> ids[j] < i
      invariant forall b: byte :: b in ids <==> b < i && (w, b) in shares
    {
      if (w, i) in shares {
        ids := ids + [i];
      }
    }
    forall b: byte ensures b in Elements(ids) <==> b in IndicesOf(shares, w) {
      assert b in IndicesOf(shares, w) <==> (w, b) in shares;
    }
  }

  /** The `need` lowest of the indices, ascending. */
  ghost predicate Lowest(ids: seq<byte>, have: set<byte>, need: nat) {
    && |ids| == need && StrictlyAscending(ids) && Elements(ids) <= have
    && forall b, i :: b in have - Elements(ids) && 0 <= i < |ids| ==> ids[i] < b
  }

  lemma LowestDistinct(ids: seq<byte>, have: set<byte>, need: nat)
    requires Lowest(ids, have, need)
    ensures Distinct(ids)
  {
    forall i, j | 0 <= i < j < |ids| ensures ids[i] != ids[j] {
      assert ids[i] < ids[j];
    }
  }

  lemma FirstAreLowest(listed: seq<byte>, have: set<byte>, need: nat)
    requires StrictlyAscending(listed) && Elements(listed) == have && need <= |listed|
    ensures Lowest(listed[..need], have, need)
  {
    var ids := listed[..need];
    assert forall k :: 0 <= k < need ==> listed[k] == ids[k] && ids[k] in Elements(ids);
    forall b, i | b in have - Elements(ids) && 0 <= i < need ensures ids[i] < b {
      var k :| 0 <= k < |listed| && listed[k] == b;
      assert listed[i] < listed[k];
    }
  }

  function Picked(shares: Shares, w: Ulid, ids: seq<byte>): (r: seq<Share>)
    requires forall i :: 0 <= i < |ids| ==> (w, ids[i]) in shares
    ensures |r| == |ids| && forall i :: 0 <= i < |ids| ==> r[i] == shares[(w, ids[i])]
  {
    seq(|ids|, i requires 0 <= i < |ids| => shares[(w, ids[i])])
  }

  /** Any threshold many stored shares of a wallet give the enclave the wallet's own seed. */
  lemma StoredSharesSign(F: Field, signers: Signers, shares: Shares, deals: map<Ulid, Deal>, record: WalletRecord,
                         w: Ulid, ids: seq<byte>, path: Option<Hd.Path>, message: Bytes)
    requires ScalarField(F) && SharesGenuine(F, shares, deals) && w in deals && RecordTrue(F, signers, record, deals[w])
    requires Distinct(ids) && |ids| >= record.config.threshold
    requires forall i :: 0 <= i < |ids| ==> (w, ids[i]) in shares
    ensures EnclaveSigned(F, signers, false, Picked(shares, w, ids), record.config.scheme, path, message)
            == KeySigned(signers, record.config.scheme, deals[w].secret, path, message)
  {
    hide Combined, Deal.ShareOf, FromBE, IsField, Pow256, KeySigned;
    var deal, chosen := deals[w], Picked(shares, w, ids);
    forall i | 0 <= i < |chosen|
      ensures chosen[i] == deal.ShareOf(ids[i]) && 1 <= ids[i] <= deal.params.total && chosen[i].index == ids[i]
      ensures chosen[i].params == deal.params
    {
      assert Genuine(F, (w, ids[i]), shares[(w, ids[i])], deals);
      ShareShape(deal, ids[i]);
    }
    assert Indices(chosen) == ids;
    RoundTrip(chosen, deal);
  }

  /** Without a path, that seed signs under the recorded public key, for every scheme. */
  lemma SeedSignsUnderMaster(F: Field, signers: Signers, record: WalletRecord, deal: Deal, message: Bytes)
    requires RecordTrue(F, signers, record, deal)
    ensures KeySigned(signers, record.config.scheme, deal.secret, None, message)
            == var signature := signers.sign(record.config.scheme, deal.secret[..32], message);
               if signature.None? then Err(SignerFailed) else Ok(Response(signature.value, record.masterPublicKey))
  {
    hide Deal.Valid;
  }

  // ------------------------------------------------------------ the service as a state machine

  datatype State = State(wallets: map<Ulid, WalletRecord>, shares: Shares)

  /** `puts` is how many share writes succeed before one fails; `audited` whether the audit write does. */
  datatype Op =
    | Create(id: Ulid, config: WalletConfig, entropy: Entropy, puts: nat, audited: bool)
    | Delete(id: Ulid, index: byte)

  /** A new ULID names no wallet and no share yet. */
  ghost predicate NewId(s: State, id: Ulid) {
    id !in s.wallets && forall k :: k in s.shares ==> k.0 != id
  }

  ghost function Stored(shares: Shares, id: Ulid, deal: Deal, n: byte): Shares
    requires deal.Valid()
    decreases n
  {
    if n == 0 then shares else Stored(shares, id, deal, n - 1)[(id, n) := deal.ShareOf(n)]
  }

  lemma GeneratedDealIsValid(F: Field, signers: Signers, config: WalletConfig, entropy: Entropy)
    requires ScalarField(F) && GenerateError(signers, config, None, entropy).None?
    ensures DealOf(F, config, entropy).Valid()
  {
  }

  ghost function Step(F: Field, signers: Signers, s: State, op: Op): State
    requires ScalarField(F)
  {
    match op
    case Delete(id, index) => s.(shares := s.shares - {(id, index)})
    case Create(id, config, entropy, puts, audited) =>
      if GenerateError(signers, config, None, entropy).Some? then s
      else
        GeneratedDealIsValid(F, signers, config, entropy);
        var deal := DealOf(F, config, entropy);
        if puts < config.total then s.(shares := Stored(s.shares, id, deal, puts))
        else State(s.wallets[id := RecordOf(signers, config, entropy)], Stored(s.shares, id, deal, config.total))
  }

  function RecordOf(signers: Signers, config: WalletConfig, entropy: Entropy): WalletRecord
    requires GenerateError(signers, config, None, entropy).None?
  {
    WalletRecord(config, ReportedKey(signers, config.scheme, Seed(config.scheme, entropy), None).value, Active)
  }

  ghost predicate Sound(F: Field, signers: Signers, s: State, deals: map<Ulid, Deal>) {
    SharesGenuine(F, s.shares, deals) && RecordsTrue(F, signers, s.wallets, deals)
  }

  lemma {:induction false} StoredGenuine(F: Field, shares: Shares, id: Ulid, deal: Deal, n: byte, deals: map<Ulid,
                                         Deal>)
    requires deal.Valid() && deal.F == F && n <= deal.params.total
    requires id in deals && deals[id] == deal && SharesGenuine(F, shares, deals)
    ensures SharesGenuine(F, Stored(shares, id, deal, n), deals)
    decreases n
  {
    hide Deal.Valid, Deal.ShareOf;
    if n > 0 {
      StoredGenuine(F, shares, id, deal, n - 1, deals);
    }
  }

  /** The deal that a creation adds. */
  ghost function Dealt(F: Field, signers: Signers, op: Op, deals: map<Ulid, Deal>): map<Ulid, Deal> {
    if op.Create? && GenerateError(signers, op.config, None, op.entropy).None?
    then deals[op.id := DealOf(F, op.config, op.entropy)] else deals
  }

  lemma StepStaysSound(F: Field, signers: Signers, s: State, op: Op, deals: map<Ulid, Deal>)
    requires ScalarField(F) && Sound(F, signers, s, deals) && (op.Create? ==> NewId(s, op.id))
    ensures Sound(F, signers, Step(F, signers, s, op), Dealt(F, signers, op, deals))
  {
    hide Deal.ShareOf, IsField, Pow256;
    match op {
      case Delete(_, _) =>
      case Create(id, config, entropy, puts, _) =>
        if GenerateError(signers, config, None, entropy).None? {
          GeneratedDealIsValid(F, signers, config, entropy);
          var deal, next := DealOf(F, config, entropy), Dealt(F, signers, op, deals);
          forall k | k in s.shares ensures Genuine(F, k, s.shares[k], next) {
            assert Genuine(F, k, s.shares[k], deals);
          }
          StoredGenuine(F, s.shares, id, deal, if puts < config.total then puts else config.total, next);
          forall w | w in s.wallets ensures w in next && RecordTrue(F, signers, s.wallets[w], next[w]) {
          }
        }
    }
  }

  /** The states reached from an empty service, each creation under a new id. */
  ghost predicate Reachable(F: Field, signers: Signers, ops: seq<Op>, s: State)
    requires ScalarField(F)
  {
    if ops == [] then s == State(map[], map[])
    else
      var last := ops[|ops| - 1];
      exists before :: Reachable(F, signers, ops[..|ops| - 1], before) && (last.Create? ==> NewId(before, last.id))
                       && s == Step(F, signers, before, last)
  }

  lemma {:induction false} ReachableStaysSound(F: Field, signers: Signers, ops: seq<Op>, s: State)
    returns (deals: map<Ulid, Deal>)
    requires ScalarField(F) && Reachable(F, signers, ops, s)
    ensures Sound(F, signers, s, deals)
  {
    hide Step, ScalarField, Dealt;
    if ops == [] {
      deals := map[];
    } else {
      var last := ops[|ops| - 1];
      var before :| Reachable(F, signers, ops[..|ops| - 1], before) && (last.Create? ==> NewId(before, last.id))
                    && s == Step(F, signers, before, last);
      var earlier := ReachableStaysSound(F, signers, ops[..|ops| - 1], before);
      StepStaysSound(F, signers, before, last, earlier);
      deals := Dealt(F, signers, last, earlier);
    }
  }

  /**
   The key agreement law. After any run of creations (complete or cut short) and
   deletions, any threshold many distinct stored shares of a recorded wallet, used
   without a path, either meet a signer error or sign under the recorded master key.
   */
  lemma MasterKeyAgreement(F: Field, signers: Signers, ops: seq<Op>, s: State, w: Ulid, ids: seq<byte>, message: Bytes)
    requires ScalarField(F) && Reachable(F, signers, ops, s) && w in s.wallets
    requires Distinct(ids) && |ids| >= s.wallets[w].config.threshold
    requires forall i :: 0 <= i < |ids| ==> (w, ids[i]) in s.shares
    ensures var r := EnclaveSigned(F, signers, false, Picked(s.shares, w, ids), s.wallets[w].config.scheme, None,
                                   message);
            r == Err(SignerFailed) || (r.Ok? && r.value.publicKey == s.wallets[w].masterPublicKey)
  {
    hide EnclaveSigned, KeySigned, Reachable, SharesGenuine, ScalarField, RecordTrue;
    var deals := ReachableStaysSound(F, signers, ops, s);
    StoredSharesSign(F, signers, s.shares, deals, s.wallets[w], w, ids, None, message);
    SeedSignsUnderMaster(F, signers, s.wallets[w], deals[w], message);
  }

  class Service {
    const F: Field
    const signers: Signers
    var wallets: map<Ulid, WalletRecord>
    var shares: Shares
    ghost var deals: map<Ulid, Deal>

    ghost predicate Valid()
      reads this
    {
      ScalarField(F) && Sound(F, signers, State(wallets, shares), deals)
    }

    constructor (F: Field, signers: Signers)
      requires ScalarField(F)
      ensures Valid() && wallets == map[] && shares == map[]
      ensures this.F == F && this.signers == signers
    {
      this.F, this.signers := F, signers;
      wallets, shares, deals := map[], map[], map[];
    }

    method CreateWallet(id: Ulid, config: WalletConfig, entropy: Entropy, puts: nat, audited: bool)
      returns (r: Outcome<WalletRecord, ServiceError>)
      requires Valid() && NewId(State(wallets, shares), id)
      modifies this
      ensures Valid()
      ensures State(wallets, shares)
              == Step(F, signers, old(State(wallets, shares)), Create(id, config, entropy, puts, audited))
      ensures r == var e := GenerateError(signers, config, None, entropy);
                   if e.Some? then Err(Enclave(e.value))
                   else if puts < config.total then Err(StoreFailed)
                   else if !audited then Err(AuditFailed)
                   else Ok(RecordOf(signers, config, entropy))
    {
      hide Deal.ShareOf, Deal.Valid, ScalarField, GenerateError, SharesGenuine, RecordsTrue, Seed;
      ghost var op := Create(id, config, entropy, puts, audited);
      ghost var before := State(wallets, shares);
      StepStaysSound(F, signers, before, op, deals);
      var gen := GenerateWallet(F, signers, config, None, entropy);
      if !gen.Ok? {
        return if gen.Panic? then Panic else Err(Enclave(gen.error));
      }
      ghost var deal := DealOf(F, config, entropy);
      deals := deals[id := deal];
      var (made, public) := gen.value;
      for i := 0 to |made|
        invariant i <= puts && wallets == before.wallets && deals == Dealt(F, signers, op, old(deals))
        invariant shares == Stored(before.shares, id, deal, i)
      {
        ShareShape(deal, i + 1);
        if i == puts {
          return Err(StoreFailed);
        }
        shares := shares[(id, made[i].index) := made[i]];
      }
      var record := WalletRecord(config, public, Active);
      wallets := wallets[id := record];
      if !audited {
        return Err(AuditFailed);
      }
      return Ok(record);
    }

    method DeleteShare(id: Ulid, index: byte)
      requires Valid()
      modifies this
      ensures Valid()
      ensures State(wallets, shares) == Step(F, signers, old(State(wallets, shares)), Delete(id, index))
    {
      hide ScalarField, SharesGenuine, RecordsTrue;
      StepStaysSound(F, signers, State(wallets, shares), Delete(id, index), deals);
      shares := shares - {(id, index)};
    }

    /** `lost` says which reads of the share store fail; `ids` are the lowest indices stored, as many as needed. */
    method FetchShares(w: Ulid, lost: byte -> bool) returns (r: Outcome<seq<Share>, ServiceError>, ghost ids: seq<byte>)
      requires w in wallets
      ensures var need := wallets[w].config.threshold;
              var have := IndicesOf(shares, w);
              && (|have| < need ==> r == Err(InsufficientShares(|have|, need)))
              && (|have| >= need ==>
                    && Lowest(ids, have, need)
                    && (forall i :: 0 <= i < |ids| ==> (w, ids[i]) in shares)
                    && (r == if exists i :: 0 <= i < |ids| && lost(ids[i]) then Err(StoreFailed)
                             else Ok(Picked(shares, w, ids))))
    {
      var listed := ListShares(shares, w);
      DistinctCount(listed);
      var need := wallets[w].config.threshold;
      ids := [];
      if |listed| < need {
        return Err(InsufficientShares(|listed|, need)), ids;
      }
      ids := listed[..need];
      FirstAreLowest(listed, IndicesOf(shares, w), need);
      var out := [];
      forall i | 0 <= i < |listed| ensures listed[i] in IndicesOf(shares, w) && (w, listed[i]) in shares {
        assert listed[i] in Elements(listed);
      }
      for i := 0 to need
        invariant |out| == i && forall j :: 0 <= j < i ==> out[j] == shares[(w, ids[j])] && !lost(ids[j])
      {
        if lost(listed[i]) {
          assert lost(ids[i]);
          return Err(StoreFailed), ids;
        }
        out := out + [shares[(w, listed[i])]];
      }
      assert out == Picked(shares, w, ids);
      return Ok(out), ids;
    }

    /** The share fetch and the enclave call of `sign`; `stopped` is any earlier denial or failure. */
    method Sign(w: Ulid, path: Option<Hd.Path>, message: Bytes, stopped: bool, refused: bool, lost: byte -> bool)
      returns (r: Outcome<Response, ServiceError>)
      requires Valid()
      ensures w !in wallets || wallets[w].status == Revoked ==> r == Err(WalletNotFound)
      ensures w in wallets && wallets[w].status == Active ==>
                var need, have := wallets[w].config.threshold, IndicesOf(shares, w);
                && w in deals
                && (stopped ==> r == Err(Stopped))
                && (!stopped && |have| < need ==> r == Err(InsufficientShares(|have|, need)))
                && (!stopped && |have| >= need ==>
                      exists ids :: Lowest(ids, have, need)
                                    && r == if exists i :: 0 <= i < |ids| && lost(ids[i]) then Err(StoreFailed)
                                            else if refused then Err(Enclave(PolicyRefused))
                                            else Answer(KeySigned(signers, wallets[w].config.scheme, deals[w].secret,
                                                                  path, message)))
      ensures r.Ok? ==> w in wallets && wallets[w].status == Active && !stopped && !refused
                          && |IndicesOf(shares, w)| >= wallets[w].config.threshold
      ensures r.Ok? && path.None? ==> r.value.publicKey == wallets[w].masterPublicKey
      ensures r.Ok? ==> w in deals && exists key ::
                          && WorkingKey(signers, wallets[w].config.scheme, deals[w].secret, path, key)
                          && SignedWith(signers, wallets[w].config.scheme, key, message, r.value)
      ensures !r.Panic?
      ensures w in wallets && wallets[w].status == Active && !stopped && !refused
              && |IndicesOf(shares, w)| >= wallets[w].config.threshold
              && (forall i :: i in IndicesOf(shares, w) ==> !lost(i))
              ==> r == Answer(KeySigned(signers, wallets[w].config.scheme, deals[w].secret, path, message))
    {
      hide EnclaveSigned, KeySigned, SharesGenuine, RecordTrue, IsField, Pow256, IndicesOf, Picked, Distinct;
      hide WorkingKey, SignedWith;
      if w !in wallets || wallets[w].status == Revoked {
        return Err(WalletNotFound);
      }
      if stopped {
        return Err(Stopped);
      }
      var record := wallets[w];
      var fetched, ids := FetchShares(w, lost);
      if fetched.Err? {
        return Err(fetched.error);
      }
      var answer := SignInEnclave(F, signers, refused, fetched.value, record.config.scheme, path, message);
      LowestDistinct(ids, IndicesOf(shares, w), record.config.threshold);
      if refused {
        RefusedFirst(F, signers, fetched.value, record.config.scheme, path, message);
      } else {
        StoredSharesSign(F, signers, shares, deals, record, w, ids, path, message);
        SignedUnderMaster(F, signers, record, deals[w], path, message);
        if answer.Ok? {
          SignedExactly(signers, record.config.scheme, deals[w].secret, path, message, answer.value);
        }
      }
      return Answer(answer);
    }
  }

  function Answer(r: Outcome<Response, EnclaveError>): Outcome<Response, ServiceError> {
    match r
    case Ok(v) => Ok(v)
    case Err(e) => Err(Enclave(e))
    case Panic => Panic
  }

  lemma SignedUnderMaster(F: Field, signers: Signers, record: WalletRecord, deal: Deal, path: Option<Hd.Path>,
                          message: Bytes)
    requires RecordTrue(F, signers, record, deal)
    ensures var r := KeySigned(signers, record.config.scheme, deal.secret, path, message);
            !r.Panic? && (r.Ok? && path.None? ==> r.value.publicKey == record.masterPublicKey)
  {
    hide Deal.Valid;
    if path.None? { SeedSignsUnderMaster(F, signers, record, deal, message); }
  }

  lemma RefusedFirst(F: Field, signers: Signers, shares: seq<Share>, scheme: SigningScheme, path: Option<Hd.Path>,
                     message: Bytes)
    requires 0 < F.p <= Pow256(32)
    ensures EnclaveSigned(F, signers, true, shares, scheme, path, message) == Err(PolicyRefused)
  {
  }
}
