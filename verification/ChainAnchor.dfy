/**
 The on-chain audit anchor (crates/qfc-audit/src/chain_anchor.rs): hand-rolled
 RLP writers that append to a caller's buffer, an EIP-155 legacy transaction
 built with them, and the calldata that carries the anchor.

 Hashing and signing are parameters. The main result is the round trip through
 the independent reader of module `EvmDecoder`.
 */
module ChainAnchor {
  import opened Bytes
  import opened Rlp
  import opened EvmDecoder

  /** A `Vec<u8>` handed around by mutable reference. */
  class Buffer {
    var bytes: Bytes

    constructor (initial: Bytes)
      ensures bytes == initial
    {
      bytes := initial;
    }
  }

  method RlpLenPrefix(len: nat, base: byte, out: Buffer)
    requires len < LENGTH_LIMIT && Base(base)
    modifies out
    ensures out.bytes == old(out.bytes) + LenPrefix(len, base)
  {
    if len <= 55 {
      out.bytes := out.bytes + [base + len];
    } else {
      hide FromBE, MinBE, StripZeros, Pow256;
      MachineWidths();
      var be := ToBE(len, 8);
      StripZerosIsMinBE(be);
      LengthOfLength(len);
      var lb := StripZeros(be);
      out.bytes := out.bytes + [base + 55 + |lb|];
      out.bytes := out.bytes + lb;
    }
  }

  method RlpString(b: Bytes, out: Buffer)
    requires |b| < LENGTH_LIMIT
    modifies out
    ensures out.bytes == old(out.bytes) + EncString(b)
  {
    hide LenPrefix;
    if |b| == 1 && b[0] < 0x80 {
      assert b == [b[0]];
      out.bytes := out.bytes + [b[0]];
    } else {
      Reassociate(out.bytes, LenPrefix(|b|, STRING_BASE), b);
      RlpLenPrefix(|b|, STRING_BASE, out);
      out.bytes := out.bytes + b;
    }
  }

  /** Leading zero bytes are stripped, so any big-endian form of `n` writes the scalar `n`. */
  method RlpScalar(be: Bytes, out: Buffer)
    requires |be| <= 32
    modifies out
    ensures |MinBE(FromBE(be))| <= 32
    ensures out.bytes == old(out.bytes) + EncScalar(FromBE(be))
  {
    StripZerosIsMinBE(be);
    Pow256Monotone(|be|, 32);
    MinBELength(FromBE(be), 32);
    RlpString(StripZeros(be), out);
  }

  method RlpUint(n: nat, width: nat, out: Buffer)
    requires width <= 32 && n < Pow256(width)
    modifies out
    ensures |MinBE(n)| <= 32
    ensures out.bytes == old(out.bytes) + EncScalar(n)
  {
    RlpScalar(ToBE(n, width), out);
  }

  method RlpList(payload: Bytes, out: Buffer)
    requires |payload| < LENGTH_LIMIT
    modifies out
    ensures out.bytes == old(out.bytes) + EncList(payload)
  {
    hide LenPrefix;
    Reassociate(out.bytes, LenPrefix(|payload|, LIST_BASE), payload);
    RlpLenPrefix(|payload|, LIST_BASE, out);
    out.bytes := out.bytes + payload;
  }

  // ------------------------------------------------------------ the transaction

  datatype Signature = Signature(r: Bytes, s: Bytes, recoveryId: nat)

  datatype TxRequest = TxRequest(nonce: nat, gasPrice: nat, gasLimit: nat, to: Bytes, value: nat, data: Bytes,
                                 chainId: nat) {
    ghost predicate Valid() {
      && nonce < Pow256(8) && gasPrice < Pow256(16) && gasLimit < Pow256(8) && |to| == 20
      && value < Pow256(16) && |data| < 0x8000_0000_0000_0000 && chainId < Pow256(8)
    }

    /** The envelope with the given last three fields. */
    function Sealed(v: nat, r: Bytes, s: Bytes): Envelope {
      Legacy(nonce, gasPrice, gasLimit, Some(to), value, data, v, r, s)
    }
  }

  /** The recoverable signature over a prehash, or none; `r` and `s` are 32-byte scalars. */
  type Signer = Bytes -> Option<Signature>

  ghost predicate SoundSigner(sign: Signer) {
    forall m {:trigger sign(m)} :: sign(m).Some? ==>
      |sign(m).value.r| == 32 && |sign(m).value.s| == 32 && sign(m).value.recoveryId <= 3
  }

  /** EIP-155 `v` in wrapping 64-bit arithmetic, as in a release build; a development build panics on overflow. */
  function VOf(recoveryId: nat, chainId: nat): (v: nat)
    ensures v < Pow256(8)
  {
    MachineWidths();
    (recoveryId + 35 + chainId * 2) % 0x1_0000_0000_0000_0000
  }

  /** What is hashed and signed: the envelope with the chain id for `v` and empty `r`, `s`. */
  function Unsigned(tx: TxRequest): Envelope {
    tx.Sealed(tx.chainId, [], [])
  }

  function Signed(tx: TxRequest, sig: Signature): Envelope {
    tx.Sealed(VOf(sig.recoveryId, tx.chainId), StripZeros(sig.r), StripZeros(sig.s))
  }

  lemma {:induction false} ConcatSnoc(items: seq<Bytes>, last: Bytes)
    ensures Concat(items + [last]) == Concat(items) + last
  {
    if items == [] {
      assert (items + [last])[1..] == [];
    } else {
      ConcatSnoc(items[1..], last);
      assert (items + [last])[1..] == items[1..] + [last];
    }
  }

  lemma {:induction false} ConcatBound(items: seq<Bytes>, limit: nat)
    requires forall i :: 0 <= i < |items| ==> |items[i]| <= limit
    ensures |Concat(items)| <= |items| * limit
  {
    if items != [] {
      ConcatBound(items[1..], limit);
      assert |items| * limit == limit + |items[1..]| * limit;
    }
  }

  /** The six shared fields and the three that close the list, as encoded. */
  function FieldBytes(tx: TxRequest, v: nat, r: Bytes, s: Bytes): (items: seq<Bytes>)
    requires tx.Valid() && v < Pow256(8) && |r| <= 32 && |s| <= 32
    ensures |items| == 9
  {
    ScalarsFit(tx, v);
    PrefixItems(tx) + [EncScalar(v), EncString(r), EncString(s)]
  }

  function PrefixItems(tx: TxRequest): (items: seq<Bytes>)
    requires tx.Valid()
    ensures |items| == 6
  {
    ScalarsFit(tx, 0);
    [EncScalar(tx.nonce), EncScalar(tx.gasPrice), EncScalar(tx.gasLimit), EncString(tx.to), EncScalar(tx.value),
     EncString(tx.data)]
  }

  lemma ScalarsFit(tx: TxRequest, v: nat)
    requires tx.Valid() && v < Pow256(8)
    ensures |MinBE(tx.nonce)| <= 8 && |MinBE(tx.gasPrice)| <= 16 && |MinBE(tx.gasLimit)| <= 8
    ensures |MinBE(tx.value)| <= 16 && |MinBE(v)| <= 8
  {
    hide MinBE;
    MinBELength(tx.nonce, 8);
    MinBELength(tx.gasPrice, 16);
    MinBELength(tx.gasLimit, 8);
    MinBELength(tx.value, 16);
    MinBELength(v, 8);
  }

  lemma SealedFields(tx: TxRequest, v: nat, r: Bytes, s: Bytes)
    requires tx.Valid() && v < Pow256(8) && |r| <= 32 && |s| <= 32
    ensures AllFit(Schema(LegacyTx), Values(tx.Sealed(v, r, s)))
    ensures EncFields(Schema(LegacyTx), Values(tx.Sealed(v, r, s))) == FieldBytes(tx, v, r, s)
  {
    hide EncScalar, EncString, MinBE, EncFields, Pow256;
    ScalarsFit(tx, v);
    var kinds, vs := Schema(LegacyTx), Values(tx.Sealed(v, r, s));
    assert AllFit(kinds, vs);
    forall i | 0 <= i < 9 ensures EncFields(kinds, vs)[i] == FieldBytes(tx, v, r, s)[i] {
      EncFieldsAt(kinds, vs, i);
    }
  }

  lemma StringLength(b: Bytes)
    requires |b| < LENGTH_LIMIT
    ensures |EncString(b)| <= |b| + 9
  {
  }

  /** The nine fields of any valid request fit a list. */
  lemma SealedWellFormed(tx: TxRequest, v: nat, r: Bytes, s: Bytes)
    requires tx.Valid() && v < Pow256(8) && |r| <= 32 && |s| <= 32
    ensures |Concat(FieldBytes(tx, v, r, s))| < LENGTH_LIMIT
    ensures WellFormed(tx.Sealed(v, r, s))
    ensures Encode(tx.Sealed(v, r, s)) == EncList(Concat(FieldBytes(tx, v, r, s)))
  {
    hide Concat, EncFields, Values, Schema, AllFit, EncList;
    SealedFields(tx, v, r, s);
    FieldsShort(tx, v, r, s);
  }

  lemma FieldsShort(tx: TxRequest, v: nat, r: Bytes, s: Bytes)
    requires tx.Valid() && v < Pow256(8) && |r| <= 32 && |s| <= 32
    ensures |Concat(FieldBytes(tx, v, r, s))| < LENGTH_LIMIT
  {
    hide EncString, MinBE, Pow256;
    var items := FieldBytes(tx, v, r, s);
    ScalarsFit(tx, v);
    StringLength(MinBE(tx.nonce));
    StringLength(MinBE(tx.gasPrice));
    StringLength(MinBE(tx.gasLimit));
    StringLength(tx.to);
    StringLength(MinBE(tx.value));
    StringLength(tx.data);
    StringLength(MinBE(v));
    StringLength(r);
    StringLength(s);
    var front, back := items[..5], items[6..];
    ConcatBound(front, 64);
    ConcatBound(back, 64);
    ConcatAppend(front, [items[5]] + back);
    assert items == front + ([items[5]] + back);
    assert ([items[5]] + back)[1..] == back;
  }

  lemma {:induction false} ConcatAppend(xs: seq<Bytes>, ys: seq<Bytes>)
    ensures Concat(xs + ys) == Concat(xs) + Concat(ys)
  {
    if xs == [] {
      assert xs + ys == ys;
      assert [] + Concat(ys) == Concat(ys);
    } else {
      ConcatAppend(xs[1..], ys);
      assert (xs + ys)[1..] == xs[1..] + ys && (xs + ys)[0] == xs[0];
      ConcatUnfold(xs);
      ConcatUnfold(xs + ys);
      hide Concat;
      Reassociate(xs[0], Concat(xs[1..]), Concat(ys));
    }
  }

  lemma ConcatUnfold(xs: seq<Bytes>)
    requires xs != []
    ensures Concat(xs) == xs[0] + Concat(xs[1..])
  {
  }

  /** Writes the six shared fields. */
  method WritePrefix(tx: TxRequest, out: Buffer)
    requires tx.Valid() && out.bytes == []
    modifies out
    ensures out.bytes == Concat(PrefixItems(tx))
  {
    hide EncString, MinBE, FromBE, Pow256;
    ScalarsFit(tx, 0);
    RlpUint(tx.nonce, 8, out);
    RlpUint(tx.gasPrice, 16, out);
    RlpUint(tx.gasLimit, 8, out);
    RlpString(tx.to, out);
    RlpUint(tx.value, 16, out);
    RlpString(tx.data, out);
    ConcatSix(PrefixItems(tx));
  }

  lemma ConcatSix(items: seq<Bytes>)
    requires |items| == 6
    ensures Concat(items) == [] + items[0] + items[1] + items[2] + items[3] + items[4] + items[5]
  {
    assert items[1..][1..] == items[2..] && items[2..][1..] == items[3..];
    assert items[3..][1..] == items[4..] && items[4..][1..] == items[5..] && items[5..][1..] == [];
    assert Concat(items[5..]) == items[5];
    assert Concat(items[4..]) == items[4] + items[5];
    assert Concat(items[3..]) == items[3] + (items[4] + items[5]);
    assert Concat(items[2..]) == items[2] + (items[3] + (items[4] + items[5]));
    assert Concat(items[1..]) == items[1] + (items[2] + (items[3] + (items[4] + items[5])));
  }

  lemma CloseList(tx: TxRequest, v: nat, r: Bytes, s: Bytes)
    requires tx.Valid() && v < Pow256(8) && |r| <= 32 && |s| <= 32
    ensures |MinBE(v)| <= 8
    ensures Concat(PrefixItems(tx)) + EncScalar(v) + EncString(r) + EncString(s) == Concat(FieldBytes(tx, v, r, s))
  {
    hide EncString, EncScalar, MinBE, Pow256, Concat, PrefixItems;
    ScalarsFit(tx, v);
    var p, a, b, c := PrefixItems(tx), EncScalar(v), EncString(r), EncString(s);
    ConcatSnoc(p, a);
    ConcatSnoc(p + [a], b);
    ConcatSnoc(p + [a] + [b], c);
    assert p + [a] + [b] + [c] == FieldBytes(tx, v, r, s);
  }

  /** Appends the last three fields and wraps the whole in a list. */
  method SealAndWrap(tx: TxRequest, fields: Buffer, v: nat, r: Bytes, s: Bytes) returns (wrapped: Bytes)
    requires tx.Valid() && v < Pow256(8) && |r| <= 32 && |s| <= 32
    requires fields.bytes == Concat(PrefixItems(tx))
    modifies fields
    ensures WellFormed(tx.Sealed(v, StripZeros(r), StripZeros(s)))
    ensures wrapped == Encode(tx.Sealed(v, StripZeros(r), StripZeros(s)))
  {
    hide FieldBytes, PrefixItems, EncString, EncList, Concat, MinBE, FromBE, WellFormed, Encode, Pow256;
    RlpUint(v, 8, fields);
    RlpScalar(r, fields);
    RlpScalar(s, fields);
    StripZerosIsMinBE(r);
    StripZerosIsMinBE(s);
    CloseList(tx, v, StripZeros(r), StripZeros(s));
    SealedWellFormed(tx, v, StripZeros(r), StripZeros(s));
    var out := new Buffer([]);
    RlpList(fields.bytes, out);
    return out.bytes;
  }

  /**
   Builds and signs the transaction. The signed digest is the hash of the
   EIP-155 signing list, and the bytes returned are the canonical encoding of
   the sealed envelope.
   */
  method SignLegacyTx(sign: Signer, keccak: Bytes -> Bytes, tx: TxRequest) returns (raw: Option<Bytes>, txHash: Bytes)
    requires tx.Valid() && SoundSigner(sign)
    ensures WellFormed(Unsigned(tx))
    ensures sign(keccak(Encode(Unsigned(tx)))).None? ==> raw == None
    ensures sign(keccak(Encode(Unsigned(tx)))).Some? ==>
              var sealed := Signed(tx, sign(keccak(Encode(Unsigned(tx)))).value);
              WellFormed(sealed) && raw == Some(Encode(sealed)) && txHash == keccak(Encode(sealed))
  {
    hide PrefixItems, Concat, WellFormed, Encode, VOf, StripZeros;
    var prefix := new Buffer([]);
    WritePrefix(tx, prefix);

    ZeroStrips();
    var signFields := new Buffer(prefix.bytes);
    var unsigned := SealAndWrap(tx, signFields, tx.chainId, ToBE(0, 8), ToBE(0, 8));
    var outcome := sign(keccak(unsigned));
    if outcome.None? {
      return None, [];
    }
    var sig := outcome.value;
    var signed := SealAndWrap(tx, prefix, VOf(sig.recoveryId, tx.chainId), sig.r, sig.s);
    return Some(signed), keccak(signed);
  }

  lemma ZeroStrips()
    ensures 0 < Pow256(8) && StripZeros(ToBE(0, 8)) == []
  {
    StripZerosIsMinBE(ToBE(0, 8));
  }

  // ------------------------------------------------------------ reading it back

  /** The chain id survives exactly when the recovery id is 0 or 1 and `v` does not overflow. */
  lemma ChainIdRecovered(recoveryId: nat, chainId: nat)
    requires recoveryId <= 3 && chainId < 0x1_0000_0000_0000_0000
    ensures ChainIdOfV(VOf(recoveryId, chainId)) == Some(chainId)
            <==> recoveryId <= 1 && recoveryId + 35 + chainId * 2 < 0x1_0000_0000_0000_0000
  {
    hide Pow256;
    var total := recoveryId + 35 + chainId * 2;
    if total < 0x1_0000_0000_0000_0000 {
      assert VOf(recoveryId, chainId) == total;
    } else if total < 0x2_0000_0000_0000_0000 {
      assert VOf(recoveryId, chainId) == total - 0x1_0000_0000_0000_0000;
    } else {
      assert VOf(recoveryId, chainId) == total - 0x2_0000_0000_0000_0000;
    }
  }

  /** An overflowing chain id: the policy engine would read chain 0. */
  lemma ChainIdLost()
    ensures ChainIdOfV(VOf(0, 0x8000_0000_0000_0000)) == Some(0)
  {
    hide Pow256;
  }

  /** The reader sees the very transaction that was built. */
  lemma SignedReadBack(tx: TxRequest, sig: Signature)
    requires tx.Valid() && |sig.r| == 32 && |sig.s| == 32 && sig.recoveryId <= 3
    ensures WellFormed(Signed(tx, sig))
    ensures var r := DecodeEvmTx(Encode(Signed(tx, sig)));
            && r.Ok?
            && r.value.txType == LegacyTx
            && r.value.nonce == tx.nonce && r.value.gasPrice == Some(tx.gasPrice) && r.value.gasLimit == tx.gasLimit
            && r.value.to == Some(tx.to) && r.value.value == tx.value && r.value.data == tx.data
            && (r.value.chainId == Some(tx.chainId)
                <==> sig.recoveryId <= 1 && sig.recoveryId + 35 + tx.chainId * 2 < 0x1_0000_0000_0000_0000)
  {
    hide FieldBytes, DecodeEnvelope, WellFormed, Encode, VOf, StripZeros;
    MachineWidths();
    StripLength(sig.r);
    StripLength(sig.s);
    SealedWellFormed(tx, VOf(sig.recoveryId, tx.chainId), StripZeros(sig.r), StripZeros(sig.s));
    DecodeExactly(Encode(Signed(tx, sig)), Signed(tx, sig));
    ChainIdRecovered(sig.recoveryId, tx.chainId);
  }

  lemma {:induction false} StripLength(s: Bytes)
    ensures |StripZeros(s)| <= |s|
  {
    if s != [] && s[0] == 0 {
      StripLength(s[1..]);
    }
  }

  /** Equal signing lists mean equal requests: the signature binds every field and the chain id. */
  lemma SigningListBinds(a: TxRequest, b: TxRequest)
    requires a.Valid() && b.Valid()
    ensures WellFormed(Unsigned(a)) && WellFormed(Unsigned(b))
    ensures Encode(Unsigned(a)) == Encode(Unsigned(b)) ==> a == b
  {
    hide FieldBytes, WellFormed, Encode;
    SealedWellFormed(a, a.chainId, [], []);
    SealedWellFormed(b, b.chainId, [], []);
    if Encode(Unsigned(a)) == Encode(Unsigned(b)) {
      EncodeInjective(Unsigned(a), Unsigned(b));
    }
  }

  // ------------------------------------------------------------ the calldata

  const TAG: Bytes := [0x71, 0x66, 0x63, 0x2d, 0x61, 0x75, 0x64, 0x69, 0x74, 0x2d,
                       0x61, 0x6e, 0x63, 0x68, 0x6f, 0x72, 0x2d, 0x76, 0x31, 0x00]

  function HexDigit(n: nat): char
    requires n < 16
  {
    if n < 10 then '0' + n as char else 'a' + (n - 10) as char
  }

  function HexValue(c: char): Option<nat> {
    if '0' <= c <= '9' then Some((c - '0') as nat)
    else if 'a' <= c <= 'f' then Some((c - 'a') as nat + 10)
    else if 'A' <= c <= 'F' then Some((c - 'A') as nat + 10)
    else None
  }

  function HexEncode(b: Bytes): string {
    if b == [] then "" else [HexDigit(b[0] / 16), HexDigit(b[0] % 16)] + HexEncode(b[1..])
  }

  function HexDecode(s: string): (r: Option<Bytes>)
    ensures r.Some? ==> |s| == 2 * |r.value|
  {
    if s == "" then Some([])
    else if |s| == 1 then None
    else
      var hi, lo, rest := HexValue(s[0]), HexValue(s[1]), HexDecode(s[2..]);
      if hi.None? || lo.None? || rest.None? || hi.value >= 16 || lo.value >= 16 then None
      else Some([hi.value * 16 + lo.value] + rest.value)
  }

  lemma {:induction false} HexRoundTrip(b: Bytes)
    ensures HexDecode(HexEncode(b)) == Some(b)
  {
    if b != [] {
      HexRoundTrip(b[1..]);
      var s := HexEncode(b);
      assert s[2..] == HexEncode(b[1..]);
      NibbleRoundTrip(b[0] / 16);
      NibbleRoundTrip(b[0] % 16);
      assert b == [b[0]] + b[1..];
    }
  }

  lemma NibbleRoundTrip(n: nat)
    requires n < 16
    ensures HexValue(HexDigit(n)) == Some(n)
  {
  }

  datatype AnchorPayload = AnchorPayload(dateUtc: Bytes, chainHeadHex: string, eventCount: nat)

  method AnchorCalldata(payload: AnchorPayload) returns (data: Option<Bytes>)
    requires payload.eventCount < Pow256(8)
    ensures var head := HexDecode(payload.chainHeadHex);
            data == if head.None? || |head.value| != 32 then None
                    else Some(TAG + head.value + ToBE(payload.eventCount, 8) + payload.dateUtc)
  {
    var head := HexDecode(payload.chainHeadHex);
    if head.None? {
      return None;
    }
    if |head.value| != 32 {
      return None;
    }
    var buf := TAG;
    buf := buf + head.value;
    buf := buf + ToBE(payload.eventCount, 8);
    buf := buf + payload.dateUtc;
    return Some(buf);
  }

  datatype Anchored = Anchored(head: Bytes, eventCount: nat, dateUtc: Bytes)

  /** What a verifier does with transaction input: split off the tag, read head, count and date. */
  function ReadCalldata(data: Bytes): Option<Anchored> {
    if |data| < 60 || data[..20] != TAG then None
    else Some(Anchored(data[20..52], FromBE(data[52..60]), data[60..]))
  }

  lemma TagText()
    ensures TAG == AsciiOf("qfc-audit-anchor-v1") + [0]
  {
    var text := AsciiOf("qfc-audit-anchor-v1");
    forall i | 0 <= i < 19 ensures text[i] == TAG[i] {
    }
  }

  lemma CalldataReadBack(head: Bytes, count: nat, date: Bytes)
    requires |head| == 32 && count < Pow256(8)
    ensures ReadCalldata(TAG + head + ToBE(count, 8) + date) == Some(Anchored(head, count, date))
  {
    hide ToBE, FromBE;
    var be := ToBE(count, 8);
    var data := TAG + head + be + date;
    assert data[..20] == TAG && data[20..52] == head && data[52..60] == be && data[60..] == date;
  }

  /**
   End to end: build the calldata of a chain head, put it in a transaction, sign
   it, decode the bytes with the policy decoder, read the data field. Out come
   the head, the event count and the date.
   */
  lemma AnchorEndToEnd(head: Bytes, count: nat, date: Bytes, tx: TxRequest, sig: Signature)
    requires |head| == 32 && count < Pow256(8)
    requires tx.Valid() && tx.data == AsciiOf("qfc-audit-anchor-v1") + [0] + head + ToBE(count, 8) + date
    requires |sig.r| == 32 && |sig.s| == 32 && sig.recoveryId <= 3
    ensures HexDecode(HexEncode(head)) == Some(head)
    ensures WellFormed(Signed(tx, sig))
    ensures var r := DecodeEvmTx(Encode(Signed(tx, sig)));
            r.Ok? && ReadCalldata(r.value.data) == Some(Anchored(head, count, date))
  {
    hide DecodeEvmTx, WellFormed, Encode, ReadCalldata, Signed, HexEncode, HexDecode;
    TagText();
    HexRoundTrip(head);
    SignedReadBack(tx, sig);
    CalldataReadBack(head, count, date);
  }
}
