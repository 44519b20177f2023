/** Identifiers, schemes and signing requests shared by the policy, enclave and audit components. */
module WalletTypes {
  import opened Bytes

  /** The canonical text of a ULID: 26 ASCII characters. */
  type Ulid = b: Bytes | |b| == 26 witness seq(26, _ => 0x30)

  type Hash = b: Bytes | |b| == 32 witness seq(32, _ => 0)

  datatype Json = Null | Bool(b: bool) | Number(n: int) | Str(s: string) | Array(items: seq<Json>)
                | Object(fields: seq<(string, Json)>)

  datatype SigningScheme = Ed25519 | Secp256k1 | Secp256k1Recoverable | MlDsa44 | MlDsa65 | MlDsa87 {
    predicate IsPostQuantum() {
      MlDsa44? || MlDsa65? || MlDsa87?
    }
  }

  datatype VmType = Evm | Qvm | Wasm

  datatype Requester =
    | ApiKey(keyId: Bytes)
    | OAuthSubject(sub: Bytes)
    | NestedWallet(walletId: Ulid)
    | OnChainContract(chainId: nat, address: Bytes)

  datatype SigningPayload =
    | Raw(bytes: Bytes)
    | PersonalSign(bytes: Bytes)
    | TypedData(json: Json)
    | VmTransaction(vm: VmType, chainId: nat, to: Option<Bytes>, raw: Bytes)
  {
    function Chain(): Option<nat> {
      if VmTransaction? then Some(chainId) else None
    }

    function Vm(): Option<VmType> {
      if VmTransaction? then Some(vm) else None
    }
  }

  datatype SigningRequest = SigningRequest(
    requestId: Ulid, walletId: Ulid, requester: Requester, payload: SigningPayload, receivedAtUnixMs: int)

  predicate I64(t: int) {
    -0x8000_0000_0000_0000 <= t < 0x8000_0000_0000_0000
  }
}
