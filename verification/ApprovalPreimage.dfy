/**
 The bytes an approver signs. Four programs build them: the quorum crate
 (crates/qfc-quorum/src/approval.rs), the enclave's own copy
 (crates/qfc-enclave/src/hybrid_verifier.rs), the TypeScript client
 (clients/approver-ts/src/preimage.ts) and the gRPC example
 (clients/wallet-grpc-rs/examples/submit_approval.rs).
 */
module ApprovalPreimage {
  import opened Bytes
  import opened WalletTypes
  import opened Freshness

  const BAR: byte := 0x7c
  const PREIMAGE_LEN := 97
  const TWO64 := 0x1_0000_0000_0000_0000
  const MAX_APPROVAL_AGE_SECS := 3600

  datatype Decision = Approve | Reject

  function DecisionByte(d: Decision): byte {
    match d
    case Approve => 0x01
    case Reject => 0x00
  }

  /** `i64::to_be_bytes`. */
  function TimestampBytes(t: int): (s: Bytes)
    requires I64(t)
    ensures |s| == 8 && FromBE(s) == TwosComplement64(t)
  {
    MachineWidths();
    ToBE(TwosComplement64(t), 8)
  }

  /** The layout all four builders aim at: id, request id, hash, decision, time, with bars between. */
  function Layout(approvalId: Ulid, requestId: Ulid, hash: Hash, d: Decision, t: int): (s: Bytes)
    requires I64(t)
    ensures |s| == PREIMAGE_LEN
  {
    approvalId + [BAR] + requestId + [BAR] + hash + [BAR, DecisionByte(d), BAR] + TimestampBytes(t)
  }

  lemma LayoutParts(approvalId: Ulid, requestId: Ulid, hash: Hash, d: Decision, t: int)
    requires I64(t)
    ensures var s := Layout(approvalId, requestId, hash, d, t);
            && s[..26] == approvalId && s[27..53] == requestId && s[54..86] == hash
            && s[87] == DecisionByte(d) && s[89..] == TimestampBytes(t)
  {
    hide TimestampBytes;
  }

  /** Signing one approval never signs another: the layout determines every field. */
  lemma LayoutInjective(a: Ulid, r: Ulid, h: Hash, d: Decision, t: int, a': Ulid, r': Ulid, h': Hash, d': Decision,
                        t': int)
    requires I64(t) && I64(t')
    requires Layout(a, r, h, d, t) == Layout(a', r', h', d', t')
    ensures a == a' && r == r' && h == h' && d == d' && t == t'
  {
    hide Layout, FromBE;
    LayoutParts(a, r, h, d, t);
    LayoutParts(a', r', h', d', t');
    assert TwosComplement64(t) == FromBE(TimestampBytes(t)) == FromBE(TimestampBytes(t'));
  }

  // ------------------------------------------------------------ the quorum crate

  method SigningPreimage(approvalId: Ulid, requestId: Ulid, messageHash: Hash, d: Decision, timestampUnixMs: int)
    returns (buf: Bytes)
    requires I64(timestampUnixMs)
    ensures buf == Layout(approvalId, requestId, messageHash, d, timestampUnixMs)
  {
    hide TimestampBytes;
    buf := approvalId;
    buf := buf + [BAR];
    buf := buf + requestId;
    buf := buf + [BAR];
    buf := buf + messageHash;
    buf := buf + [BAR];
    buf := buf + [DecisionByte(d)];
    buf := buf + [BAR];
    buf := buf + TimestampBytes(timestampUnixMs);
  }

  datatype ApprovalError = WrongRequest | WrongMessage | FromTheFuture | Stale | Signer

  datatype SignedApproval = SignedApproval(
    approvalId: Ulid, scheme: SigningScheme, publicKey: Bytes, requestId: Ulid, messageHash: Hash,
    decision: Decision, timestampUnixMs: int, signature: Bytes)
  {
    function Preimage(): Bytes
      requires I64(timestampUnixMs)
    {
      Layout(approvalId, requestId, messageHash, decision, timestampUnixMs)
    }
  }

  /** Signature checking by scheme: key, message, signature. */
  type Verifier = (SigningScheme, Bytes, Bytes, Bytes) -> bool

  /** What an approval must be to count: for this request and message, signed within the last hour, genuine. */
  predicate ApprovalGood(verifier: Verifier, ap: SignedApproval, requestId: Ulid, hash: Hash, now: int)
    requires I64(ap.timestampUnixMs)
  {
    && ap.requestId == requestId && ap.messageHash == hash
    && 0 <= now - ap.timestampUnixMs < 1000 * (MAX_APPROVAL_AGE_SECS + 1)
    && verifier(ap.scheme, ap.publicKey, ap.Preimage(), ap.signature)
  }

  /** The first thing wrong with an approval, in exact integers. */
  function ApprovalProblem(ap: SignedApproval, requestId: Ulid, hash: Hash, now: int): ApprovalError {
    if ap.requestId != requestId then WrongRequest
    else if ap.messageHash != hash then WrongMessage
    else if now < ap.timestampUnixMs then FromTheFuture
    else if now - ap.timestampUnixMs >= 1000 * (MAX_APPROVAL_AGE_SECS + 1) then Stale
    else Signer
  }

  /**
   `SignedApproval::verify` accepts exactly the good approvals, of either decision,
   and names the first problem of others.
   */
  method Verify(verifier: Verifier, ap: SignedApproval, requestId: Ulid, hash: Hash, now: int)
    returns (error: Option<ApprovalError>)
    requires I64(now) && I64(ap.timestampUnixMs)
    ensures error == if ApprovalGood(verifier, ap, requestId, hash, now) then None
                     else Some(ApprovalProblem(ap, requestId, hash, now))
  {
    hide Layout;
    ApprovalAgeExactly(now, ap.timestampUnixMs, MAX_APPROVAL_AGE_SECS);
    if ap.requestId != requestId {
      return Some(WrongRequest);
    }
    if ap.messageHash != hash {
      return Some(WrongMessage);
    }
    var ageMs := SaturatingSub(now, ap.timestampUnixMs);
    if ageMs < 0 {
      return Some(FromTheFuture);
    }
    if ageMs / 1000 > MAX_APPROVAL_AGE_SECS {
      return Some(Stale);
    }
    var preimage := SigningPreimage(ap.approvalId, ap.requestId, ap.messageHash, ap.decision, ap.timestampUnixMs);
    if !verifier(ap.scheme, ap.publicKey, preimage, ap.signature) {
      return Some(Signer);
    }
    return None;
  }

  // ------------------------------------------------------------ the enclave's copy

  method EnclavePreimage(ap: SignedApproval) returns (buf: Bytes)
    requires I64(ap.timestampUnixMs)
    ensures buf == Layout(ap.approvalId, ap.requestId, ap.messageHash, ap.decision, ap.timestampUnixMs)
  {
    hide TimestampBytes;
    buf := ap.approvalId;
    buf := buf + [BAR];
    buf := buf + ap.requestId;
    buf := buf + [BAR];
    buf := buf + ap.messageHash;
    buf := buf + [BAR];
    buf := buf + [match ap.decision case Approve => 0x01 case Reject => 0x00];
    buf := buf + [BAR];
    buf := buf + TimestampBytes(ap.timestampUnixMs);
  }

  // ------------------------------------------------------------ the gRPC example

  datatype WireDecision = Unspecified | Known(decision: Decision)

  /** Ids and hash are slices of any length here; an unspecified decision becomes a sentinel byte. */
  method ExamplePreimage(approvalId: Bytes, requestId: Bytes, messageHash: Bytes, d: WireDecision, ts: int)
    returns (buf: Bytes)
    requires I64(ts)
    ensures |approvalId| == 26 && |requestId| == 26 && |messageHash| == 32 && d.Known?
            ==> buf == Layout(approvalId, requestId, messageHash, d.decision, ts)
    ensures |approvalId| == 26 && |requestId| == 26 && |messageHash| == 32 && d.Unspecified?
            ==> forall a: Ulid, r: Ulid, h: Hash, e: Decision, t: int :: I64(t) ==> buf != Layout(a, r, h, e, t)
  {
    hide TimestampBytes;
    buf := approvalId;
    buf := buf + [BAR];
    buf := buf + requestId;
    buf := buf + [BAR];
    buf := buf + messageHash;
    buf := buf + [BAR];
    var marker: byte := match d case Known(Approve) => 0x01 case Known(Reject) => 0x00 case Unspecified => 0xff;
    buf := buf + [marker];
    buf := buf + [BAR];
    buf := buf + TimestampBytes(ts);
    if |approvalId| == 26 && |requestId| == 26 && |messageHash| == 32 && d.Unspecified? {
      assert buf[87] == 0xff;
      forall a: Ulid, r: Ulid, h: Hash, e: Decision, t: int | I64(t) ensures buf != Layout(a, r, h, e, t) {
        LayoutParts(a, r, h, e, t);
      }
    }
  }

  // ------------------------------------------------------------ the TypeScript client

  datatype Built = Bytes97(bytes: Bytes) | RangeError

  predicate Ascii(s: string) {
    forall i :: 0 <= i < |s| ==> s[i] < 128 as char
  }

  /** UTF-8 of an ASCII text: its code units as bytes. */
  function AsciiBytes(s: string): (b: Bytes)
    requires Ascii(s)
    ensures |b| == |s|
  {
    seq(|s|, i requires 0 <= i < |s| => s[i] as int)
  }

  /** `TextEncoder.encode`: ASCII maps to itself, and no UTF-16 unit takes fewer than one byte or more than three. */
  ghost predicate Utf8(encode: string -> Bytes) {
    forall s {:trigger encode(s)} ::
      |s| <= |encode(s)| <= 3 * |s| && (Ascii(s) ==> encode(s) == AsciiBytes(s))
  }

  /** `Uint8Array.set`: copies at an offset, or throws when the source does not fit. */
  method Set(out: array<byte>, bytes: Bytes, off: nat) returns (ok: bool)
    requires off <= out.Length
    modifies out
    ensures ok <==> off + |bytes| <= out.Length
    ensures out[..] == if ok then old(out[..off]) + bytes + old(out[off + |bytes|..]) else old(out[..])
  {
    if off + |bytes| > out.Length {
      return false;
    }
    for i := 0 to |bytes|
      invariant forall k :: 0 <= k < out.Length && !(off <= k < off + i) ==> out[k] == old(out[k])
      invariant forall k :: 0 <= k < i ==> out[off + k] == bytes[k]
    {
      out[off + i] := bytes[i];
    }
    return true;
  }

  /** The low n bytes of any integer, in two's complement, big end first. */
  function LowBytes(t: int, n: nat): (s: Bytes)
    ensures |s| == n
    decreases n
  {
    if n == 0 then [] else LowBytes(t / 256, n - 1) + [t % 256]
  }

  /** One turn of the loop splits the range into what is left and the byte just taken. */
  lemma ModSplit(t: int, p: nat)
    requires p > 0
    ensures t % (256 * p) == 256 * ((t / 256) % p) + t % 256
  {
    var hi, lo := t / 256, t % 256;
    var q, r := hi / p, hi % p;
    assert t == 256 * hi + lo && hi == p * q + r;
    assert t == (256 * p) * q + (256 * r + lo) by {
      assert 256 * (p * q) == (256 * p) * q;
    }
    assert 0 <= 256 * r + lo < 256 * p;
    ModUnique(t, 256 * p, q, 256 * r + lo);
  }

  lemma ModUnique(t: int, m: nat, q: int, r: int)
    requires m > 0 && t == m * q + r && 0 <= r < m
    ensures t % m == r
  {
    var q', r' := t / m, t % m;
    assert m * (q - q') == r' - r;
    if q > q' {
      assert m * (q - q') >= m by { Grows(m, q - q'); }
    } else if q < q' {
      assert m * (q' - q) >= m by { Grows(m, q' - q); }
    }
  }

  lemma Grows(m: nat, k: nat)
    requires k >= 1
    ensures m * k >= m
  {
  }

  /** Shift-and-mask is two's complement: n turns leave t modulo 256^n, big end first. */
  lemma {:induction false} LowBytesValue(t: int, n: nat)
    ensures FromBE(LowBytes(t, n)) == t % Pow256(n)
    decreases n
  {
    if n > 0 {
      LowBytesValue(t / 256, n - 1);
      ModSplit(t, Pow256(n - 1));
      assert LowBytes(t, n)[..n - 1] == LowBytes(t / 256, n - 1);
    }
  }

  /** The signed 64-bit value a big integer wraps to. */
  function Wrap64(t: int): (r: int)
    ensures I64(r) && (I64(t) ==> r == t)
  {
    var low := t % TWO64;
    if low <= I64_MAX then low else low - TWO64
  }

  lemma LowBytesAreTimestamp(t: int)
    ensures LowBytes(t, 8) == TimestampBytes(Wrap64(t))
  {
    hide LowBytes, TimestampBytes, FromBE;
    MachineWidths();
    LowBytesValue(t, 8);
    FromBEInjective(LowBytes(t, 8), TimestampBytes(Wrap64(t)));
  }

  /** The shift-and-mask loop: eight turns from the last byte to the first. */
  method WriteTimestamp(out: array<byte>, off: nat, t: int)
    requires off + 8 <= out.Length
    modifies out
    ensures out[..] == old(out[..off]) + LowBytes(t, 8) + old(out[off + 8..])
  {
    var ts := t;
    ghost var was := out[..];
    var i := 7;
    assert LowBytes(ts, 8) + out[off + 8..off + 8] == LowBytes(t, 8);
    while i >= 0
      invariant -1 <= i <= 7
      invariant LowBytes(ts, i + 1) + out[off + i + 1..off + 8] == LowBytes(t, 8)
      invariant out[..off] == was[..off] && out[off + 8..] == was[off + 8..]
    {
      ghost var tail := out[off + i + 1..off + 8];
      out[off + i] := ts % 256;
      assert out[off + i..off + 8] == [ts % 256] + tail;
      assert LowBytes(ts, i + 1) == LowBytes(ts / 256, i) + [ts % 256];
      assert LowBytes(ts / 256, i) + ([ts % 256] + tail) == LowBytes(ts, i + 1) + tail;
      ts := ts / 256;
      i := i - 1;
    }
    assert out[off..off + 8] == LowBytes(t, 8);
    assert out[..] == out[..off] + out[off..off + 8] + out[off + 8..];
  }

  /** One id and the bar behind it. */
  method WriteId(out: array<byte>, bytes: Bytes, off: nat) returns (ok: bool)
    requires off + 27 <= out.Length == PREIMAGE_LEN
    modifies out
    ensures ok <==> off + |bytes| <= PREIMAGE_LEN
    ensures ok && |bytes| >= 26 ==> out[..off + 27] == old(out[..off]) + bytes[..26] + [BAR]
  {
    ok := Set(out, bytes, off);
    if ok {
      ghost var filled := out[..];
      out[off + 26] := BAR;
      assert out[..off + 27] == filled[..off + 26] + [BAR];
      assert |bytes| >= 26 ==> filled[..off + 26] == old(out[..off]) + bytes[..26];
    }
  }

  method WriteHashAndDecision(out: array<byte>, messageHash: Hash, d: Decision)
    requires out.Length == PREIMAGE_LEN
    modifies out
    ensures out[..89] == old(out[..54]) + messageHash + [BAR, DecisionByte(d), BAR]
  {
    var _ := Set(out, messageHash, 54);
    ghost var filled := out[..];
    assert filled[..86] == old(out[..54]) + messageHash;
    out[86] := BAR;
    out[87] := if d == Approve then 0x01 else 0x00;
    out[88] := BAR;
    assert out[..89] == filled[..86] + [BAR, DecisionByte(d), BAR];
  }

  /** The bytes an id leaves in its field: those of its encoding that the next field does not overwrite. */
  function IdField(bytes: Bytes): (id: Ulid)
    requires |bytes| >= 26
  {
    bytes[..26]
  }

  /**
   `buildSigningPreimage`. The timestamp is a big integer of any size; the result is
   the Rust layout of the 64-bit value it wraps to. An id's encoding is cut to its
   field, which for ASCII is no cut at all; a request id that encodes to more than
   seventy bytes does not fit the buffer.
   */
  method BuildSigningPreimage(encode: string -> Bytes, approvalId: string, requestId: string, messageHash: Bytes,
                              d: Decision, timestampUnixMs: int) returns (r: Built)
    requires Utf8(encode)
    ensures r == if |approvalId| != 26 || |requestId| != 26 || |messageHash| != 32 || |encode(requestId)| > 70
            then RangeError
                 else Bytes97(Layout(IdField(encode(approvalId)), IdField(encode(requestId)), messageHash, d,
                                     Wrap64(timestampUnixMs)))
    ensures |approvalId| == 26 && |requestId| == 26 && |messageHash| == 32 && Ascii(approvalId) && Ascii(requestId)
            ==> r == Bytes97(Layout(AsciiBytes(approvalId), AsciiBytes(requestId), messageHash, d,
                                    Wrap64(timestampUnixMs)))
  {
    hide LowBytes, TimestampBytes, Wrap64, AsciiBytes, Ascii;
    if |approvalId| != 26 || |requestId| != 26 || |messageHash| != 32 {
      return RangeError;
    }
    var out := new byte[PREIMAGE_LEN](_ => 0);
    var ok := WriteId(out, encode(approvalId), 0);
    if !ok {
      return RangeError;
    }
    ok := WriteId(out, encode(requestId), 27);
    if !ok {
      return RangeError;
    }
    ghost var ids := out[..54];
    WriteHashAndDecision(out, messageHash, d);
    ghost var front := out[..89];
    WriteTimestamp(out, 89, timestampUnixMs);
    LowBytesAreTimestamp(timestampUnixMs);
    r := Bytes97(out[..]);
    assert out[..] == front + TimestampBytes(Wrap64(timestampUnixMs));
    assert ids == IdField(encode(approvalId)) + [BAR] + IdField(encode(requestId)) + [BAR];
    if Ascii(approvalId) && Ascii(requestId) {
      WholeField(AsciiBytes(approvalId));
      WholeField(AsciiBytes(requestId));
    }
  }

  lemma WholeField(bytes: Bytes)
    requires |bytes| == 26
    ensures IdField(bytes) == bytes
  {
  }
}
