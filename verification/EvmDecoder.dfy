/**
 The structural decoder for EVM transaction envelopes
 (crates/qfc-policy/src/decoders/evm.rs): legacy and EIP-155, EIP-2930, EIP-1559
 and EIP-4844, dispatched on the first byte as EIP-2718 prescribes.

 The main result, `DecodeExactly`, says which byte strings are accepted: the
 canonical encodings of well-formed envelopes, and nothing else.
 */
module EvmDecoder {
  import opened Bytes
  import opened Results
  import opened Rlp

  datatype EvmDecodeError =
    | Empty
    | UnknownType(first: byte)
    | Malformed
    | InvalidLength(field: string, expected: nat, got: nat)

  datatype AccessListItem = AccessListItem(address: Bytes, storageKeys: seq<Bytes>)

  // ------------------------------------------------------------ field decoders

  function Lift<T>(r: Result<T, Option<RlpError>>): Result<T, EvmDecodeError> {
    if r.Ok? then Ok(r.value) else Err(Malformed)
  }

  function DecodeBytes(item: Bytes): Result<Bytes, EvmDecodeError> {
    Lift(DecodeString(item))
  }

  /** `decode_u64` (width 8) and `decode_u256` (width 32). */
  function DecodeUint(item: Bytes, width: nat, field: string): Result<nat, EvmDecodeError> {
    var bytes :- DecodeBytes(item);
    if |bytes| > width then Err(InvalidLength(field, width, |bytes|))
    else if bytes != [] && bytes[0] == 0 then Err(Malformed)
    else Ok(FromBE(bytes))
  }

  function DecodeOptionalAddress(item: Bytes): Result<Option<Bytes>, EvmDecodeError> {
    var bytes :- DecodeBytes(item);
    if bytes == [] then Ok(None)
    else if |bytes| != 20 then Err(InvalidLength("to", 20, |bytes|))
    else Ok(Some(bytes))
  }

  function DecodeHash(entry: Bytes): Result<Bytes, EvmDecodeError> {
    var bytes :- DecodeBytes(entry);
    if |bytes| != 32 then Err(InvalidLength("hash", 32, |bytes|)) else Ok(bytes)
  }

  function DecodeHashes(entries: seq<Bytes>): Result<seq<Bytes>, EvmDecodeError> {
    if entries == [] then Ok([])
    else
      var h :- DecodeHash(entries[0]);
      var more :- DecodeHashes(entries[1..]);
      Ok([h] + more)
  }

  function DecodeHashList(item: Bytes): Result<seq<Bytes>, EvmDecodeError> {
    var entries :- Lift(DecodeItems(item));
    DecodeHashes(entries)
  }

  function DecodeEntry(entry: Bytes): Result<AccessListItem, EvmDecodeError> {
    var items :- Lift(DecodeItems(entry));
    if |items| != 2 then Err(InvalidLength("access_list_entry", 2, |items|))
    else
      var address :- DecodeBytes(items[0]);
      if |address| != 20 then Err(InvalidLength("access_list_address", 20, |address|))
      else
        var keys :- DecodeHashList(items[1]);
        Ok(AccessListItem(address, keys))
  }

  function DecodeEntries(entries: seq<Bytes>): Result<seq<AccessListItem>, EvmDecodeError> {
    if entries == [] then Ok([])
    else
      var e :- DecodeEntry(entries[0]);
      var more :- DecodeEntries(entries[1..]);
      Ok([e] + more)
  }

  function DecodeAccessList(item: Bytes): Result<seq<AccessListItem>, EvmDecodeError> {
    var entries :- Lift(DecodeItems(item));
    DecodeEntries(entries)
  }

  // The loops of `decode_hash_list` and `decode_access_list`, which push to an output vector.

  method DecodeHashListLoop(item: Bytes) returns (r: Result<seq<Bytes>, EvmDecodeError>)
    ensures r == DecodeHashList(item)
  {
    hide DecodeItems, DecodeHash;
    var entries :- Lift(DecodeItems(item));
    var out: seq<Bytes> := [];
    PrependNone(DecodeHashes(entries));
    assert entries[0..] == entries;
    for i := 0 to |entries|
      invariant Prepend(out, DecodeHashes(entries[i..])) == DecodeHashes(entries)
    {
      assert entries[i..][1..] == entries[i + 1..];
      var h :- DecodeHash(entries[i]);
      PrependOne(out, h, DecodeHashes(entries[i + 1..]));
      out := out + [h];
    }
    assert entries[|entries|..] == [] && out + [] == out;
    r := Ok(out);
  }

  method DecodeAccessListLoop(item: Bytes) returns (r: Result<seq<AccessListItem>, EvmDecodeError>)
    ensures r == DecodeAccessList(item)
  {
    hide DecodeItems, DecodeBytes, DecodeHashList;
    var entries :- Lift(DecodeItems(item));
    var out: seq<AccessListItem> := [];
    PrependNone(DecodeEntries(entries));
    assert entries[0..] == entries;
    for i := 0 to |entries|
      invariant Prepend(out, DecodeEntries(entries[i..])) == DecodeEntries(entries)
    {
      assert entries[i..][1..] == entries[i + 1..];
      var items :- Lift(DecodeItems(entries[i]));
      if |items| != 2 {
        return Err(InvalidLength("access_list_entry", 2, |items|));
      }
      var address :- DecodeBytes(items[0]);
      if |address| != 20 {
        return Err(InvalidLength("access_list_address", 20, |address|));
      }
      var keys := DecodeHashListLoop(items[1]);
      if keys.Err? {
        return Err(keys.error);
      }
      var entry := AccessListItem(address, keys.value);
      PrependOne(out, entry, DecodeEntries(entries[i + 1..]));
      out := out + [entry];
    }
    assert entries[|entries|..] == [] && out + [] == out;
    r := Ok(out);
  }

  // ------------------------------------------------------------ canonical fields

  lemma BytesExactly(item: Bytes, b: Bytes)
    ensures DecodeBytes(item) == Ok(b) <==> |b| < LENGTH_LIMIT && item == EncString(b)
  {
    hide DecodeString;
    DecodeStringExactly(item, b);
  }

  /** The number decoders accept exactly the image of the scalar encoder. */
  lemma UintExactly(item: Bytes, width: nat, field: string, n: nat)
    requires width < LENGTH_LIMIT
    ensures DecodeUint(item, width, field) == Ok(n) <==> |MinBE(n)| <= width && item == EncScalar(n)
  {
    hide DecodeBytes, EncString, FromBE, MinBE;
    if DecodeUint(item, width, field) == Ok(n) {
      var bytes := DecodeBytes(item).value;
      BytesExactly(item, bytes);
      MinBEOfFromBE(bytes);
    }
    if |MinBE(n)| <= width && item == EncScalar(n) {
      BytesExactly(item, MinBE(n));
    }
  }

  function AddressBytes(to: Option<Bytes>): Bytes {
    if to.None? then [] else to.value
  }

  predicate WellFormedTo(to: Option<Bytes>) {
    to.Some? ==> |to.value| == 20
  }

  lemma AddressExactly(item: Bytes, to: Option<Bytes>)
    ensures DecodeOptionalAddress(item) == Ok(to) <==> WellFormedTo(to) && item == EncString(AddressBytes(to))
  {
    hide DecodeBytes, EncString;
    BytesExactly(item, AddressBytes(to));
    if DecodeBytes(item).Ok? { BytesExactly(item, DecodeBytes(item).value); }
  }

  ghost predicate AllWidth(hs: seq<Bytes>, width: nat) {
    forall i :: 0 <= i < |hs| ==> |hs[i]| == width
  }

  function EncHashes(hs: seq<Bytes>): (items: seq<Bytes>)
    requires AllWidth(hs, 32)
    ensures |items| == |hs| && AllFramed(items)
  {
    if hs == [] then []
    else
      StringIsFramed(hs[0]);
      assert AllWidth(hs[1..], 32);
      [EncString(hs[0])] + EncHashes(hs[1..])
  }

  function EncHashList(hs: seq<Bytes>): Bytes
    requires AllWidth(hs, 32) && |Concat(EncHashes(hs))| < LENGTH_LIMIT
  {
    EncList(Concat(EncHashes(hs)))
  }

  lemma HashExactly(item: Bytes, h: Bytes)
    ensures DecodeHash(item) == Ok(h) <==> |h| == 32 && item == EncString(h)
  {
    hide DecodeBytes, EncString;
    BytesExactly(item, h);
  }

  lemma {:induction false} HashesSound(items: seq<Bytes>)
    requires DecodeHashes(items).Ok?
    ensures AllWidth(DecodeHashes(items).value, 32) && items == EncHashes(DecodeHashes(items).value)
  {
    hide DecodeHash, EncString;
    if items != [] {
      var h, more := DecodeHash(items[0]).value, DecodeHashes(items[1..]).value;
      HashExactly(items[0], h);
      HashesSound(items[1..]);
      assert ([h] + more)[1..] == more;
      assert items == [items[0]] + items[1..];
    }
  }

  lemma {:induction false} HashesComplete(hs: seq<Bytes>)
    requires AllWidth(hs, 32)
    ensures DecodeHashes(EncHashes(hs)) == Ok(hs)
  {
    hide DecodeHash, EncString, EncHashes, AllFramed;
    EncHashesUnfold(hs);
    if hs != [] {
      hide DecodeHashes;
      HashExactly(EncString(hs[0]), hs[0]);
      HashesComplete(hs[1..]);
      DecodeHashesStep(EncString(hs[0]), hs[0], EncHashes(hs[1..]), hs[1..]);
      assert hs == [hs[0]] + hs[1..];
    }
  }

  lemma DecodeHashesStep(item: Bytes, h: Bytes, items: seq<Bytes>, hs: seq<Bytes>)
    requires DecodeHash(item) == Ok(h) && DecodeHashes(items) == Ok(hs)
    ensures DecodeHashes([item] + items) == Ok([h] + hs)
  {
    hide DecodeHash;
    assert ([item] + items)[1..] == items;
  }

  lemma EncHashesUnfold(hs: seq<Bytes>)
    requires AllWidth(hs, 32)
    ensures hs == [] ==> EncHashes(hs) == []
    ensures hs != [] ==> EncHashes(hs) == [EncString(hs[0])] + EncHashes(hs[1..])
  {
    hide EncString, AllFramed;
  }

  ghost predicate WellFormedHashes(hs: seq<Bytes>) {
    AllWidth(hs, 32) && |Concat(EncHashes(hs))| < LENGTH_LIMIT
  }

  lemma HashListExactly(item: Bytes, hs: seq<Bytes>)
    ensures DecodeHashList(item) == Ok(hs) <==> WellFormedHashes(hs) && item == EncHashList(hs)
  {
    hide DecodeItems, DecodeHashes, EncHashes, EncList, Concat;
    if DecodeHashList(item) == Ok(hs) {
      var items := DecodeItems(item).value;
      HashesSound(items);
      DecodeItemsExactly(item, items);
    }
    if WellFormedHashes(hs) && item == EncHashList(hs) {
      HashesComplete(hs);
      DecodeItemsExactly(item, EncHashes(hs));
    }
  }

  function EntryItems(e: AccessListItem): (items: seq<Bytes>)
    requires |e.address| == 20 && WellFormedHashes(e.storageKeys)
    ensures |items| == 2
  {
    [EncString(e.address), EncHashList(e.storageKeys)]
  }

  lemma EntryItemsFramed(e: AccessListItem)
    requires |e.address| == 20 && WellFormedHashes(e.storageKeys)
    ensures AllFramed(EntryItems(e))
  {
    hide Framed, EncString, Concat, EncHashes;
    StringIsFramed(e.address);
    ListIsFramed(Concat(EncHashes(e.storageKeys)));
  }

  ghost predicate WellFormedEntry(e: AccessListItem) {
    |e.address| == 20 && WellFormedHashes(e.storageKeys) && |Concat(EntryItems(e))| < LENGTH_LIMIT
  }

  function EncEntry(e: AccessListItem): Bytes
    requires WellFormedEntry(e)
  {
    EncList(Concat(EntryItems(e)))
  }

  lemma EntryExactly(item: Bytes, e: AccessListItem)
    ensures DecodeEntry(item) == Ok(e) <==> WellFormedEntry(e) && item == EncEntry(e)
  {
    if DecodeEntry(item) == Ok(e) {
      EntrySound(item, e);
    }
    if WellFormedEntry(e) && item == EncEntry(e) {
      EntryComplete(e);
    }
  }

  lemma EntrySound(item: Bytes, e: AccessListItem)
    requires DecodeEntry(item) == Ok(e)
    ensures WellFormedEntry(e) && item == EncEntry(e)
  {
    hide DecodeItems, DecodeBytes, DecodeHashList, EncList, EncHashList, EncString, Concat, WellFormedHashes;
    var items := DecodeItems(item).value;
    DecodeItemsExactly(item, items);
    BytesExactly(items[0], e.address);
    HashListExactly(items[1], e.storageKeys);
    assert items == EntryItems(e);
  }

  lemma EntryComplete(e: AccessListItem)
    requires WellFormedEntry(e)
    ensures DecodeEntry(EncEntry(e)) == Ok(e)
  {
    hide DecodeItems, DecodeBytes, DecodeHashList, EncList, EncHashList, EncString, Concat, WellFormedHashes;
    var items := EntryItems(e);
    EntryItemsFramed(e);
    DecodeItemsExactly(EncEntry(e), items);
    BytesExactly(items[0], e.address);
    HashListExactly(items[1], e.storageKeys);
  }

  ghost predicate AllEntries(es: seq<AccessListItem>) {
    forall i :: 0 <= i < |es| ==> WellFormedEntry(es[i])
  }

  function EncEntries(es: seq<AccessListItem>): (items: seq<Bytes>)
    requires AllEntries(es)
  {
    if es == [] then []
    else
      assert AllEntries(es[1..]);
      [EncEntry(es[0])] + EncEntries(es[1..])
  }

  lemma {:induction false} EntriesFramed(es: seq<AccessListItem>)
    requires AllEntries(es)
    ensures AllFramed(EncEntries(es))
  {
    hide Framed, EncEntry;
    if es != [] {
      EntryFramed(es[0]);
      EntriesFramed(es[1..]);
    }
  }

  lemma EntryFramed(e: AccessListItem)
    requires WellFormedEntry(e)
    ensures Framed(EncEntry(e))
  {
    ListIsFramed(Concat(EntryItems(e)));
  }

  lemma {:induction false} EntriesSound(items: seq<Bytes>)
    requires DecodeEntries(items).Ok?
    ensures AllEntries(DecodeEntries(items).value) && items == EncEntries(DecodeEntries(items).value)
  {
    hide DecodeEntry, EncEntry, WellFormedEntry;
    if items != [] {
      var e, more := DecodeEntry(items[0]).value, DecodeEntries(items[1..]).value;
      EntryExactly(items[0], e);
      EntriesSound(items[1..]);
      assert ([e] + more)[1..] == more;
      assert items == [items[0]] + items[1..];
    }
  }

  lemma {:induction false} EntriesComplete(es: seq<AccessListItem>)
    requires AllEntries(es)
    ensures DecodeEntries(EncEntries(es)) == Ok(es)
  {
    hide DecodeEntry, EncEntry, WellFormedEntry;
    if es != [] {
      EntryExactly(EncEntry(es[0]), es[0]);
      EntriesComplete(es[1..]);
      assert EncEntries(es)[1..] == EncEntries(es[1..]);
      assert es == [es[0]] + es[1..];
    }
  }

  ghost predicate WellFormedAccessList(es: seq<AccessListItem>) {
    AllEntries(es) && |Concat(EncEntries(es))| < LENGTH_LIMIT
  }

  function EncAccessList(es: seq<AccessListItem>): Bytes
    requires WellFormedAccessList(es)
  {
    EncList(Concat(EncEntries(es)))
  }

  /** Access lists of any length, with any number of keys per entry, decode exactly from their encoding. */
  lemma AccessListExactly(item: Bytes, es: seq<AccessListItem>)
    ensures DecodeAccessList(item) == Ok(es) <==> WellFormedAccessList(es) && item == EncAccessList(es)
  {
    hide DecodeItems, DecodeEntries, EncEntries, EncList, Concat, WellFormedEntry;
    if DecodeAccessList(item) == Ok(es) {
      var items := DecodeItems(item).value;
      EntriesSound(items);
      DecodeItemsExactly(item, items);
    }
    if WellFormedAccessList(es) && item == EncAccessList(es) {
      EntriesComplete(es);
      EntriesFramed(es);
      DecodeItemsExactly(item, EncEntries(es));
    }
  }

  // ------------------------------------------------------------ envelopes

  datatype FieldKind = U64(field: string) | U256(field: string) | Address | Data | AccessList | HashList

  datatype FieldValue =
    | Num(n: nat)
    | To(to: Option<Bytes>)
    | Blob(bytes: Bytes)
    | Accesses(entries: seq<AccessListItem>)
    | Hashes(hashes: seq<Bytes>)

  function DecodeField(kind: FieldKind, item: Bytes): Result<FieldValue, EvmDecodeError> {
    match kind
    case U64(field) => var n :- DecodeUint(item, 8, field); Ok(Num(n))
    case U256(field) => var n :- DecodeUint(item, 32, field); Ok(Num(n))
    case Address => var to :- DecodeOptionalAddress(item); Ok(To(to))
    case Data => var b :- DecodeBytes(item); Ok(Blob(b))
    case AccessList => var es :- DecodeAccessList(item); Ok(Accesses(es))
    case HashList => var hs :- DecodeHashList(item); Ok(Hashes(hs))
  }

  ghost predicate Fits(kind: FieldKind, v: FieldValue) {
    match kind
    case U64(_) => v.Num? && |MinBE(v.n)| <= 8
    case U256(_) => v.Num? && |MinBE(v.n)| <= 32
    case Address => v.To? && WellFormedTo(v.to)
    case Data => v.Blob? && |v.bytes| < LENGTH_LIMIT
    case AccessList => v.Accesses? && WellFormedAccessList(v.entries)
    case HashList => v.Hashes? && WellFormedHashes(v.hashes)
  }

  function EncField(kind: FieldKind, v: FieldValue): Bytes
    requires Fits(kind, v)
  {
    match v
    case Num(n) => EncScalar(n)
    case To(to) => EncString(AddressBytes(to))
    case Blob(b) => EncString(b)
    case Accesses(es) => EncAccessList(es)
    case Hashes(hs) => EncHashList(hs)
  }

  lemma FieldExactly(kind: FieldKind, item: Bytes, v: FieldValue)
    ensures DecodeField(kind, item) == Ok(v) <==> Fits(kind, v) && item == EncField(kind, v)
  {
    hide DecodeUint, DecodeOptionalAddress, DecodeBytes, DecodeAccessList, DecodeHashList;
    hide EncScalar, EncString, EncAccessList, EncHashList, WellFormedAccessList, WellFormedHashes, WellFormedTo, MinBE;
    match v
    case Num(n) =>
      if kind.U64? { UintExactly(item, 8, kind.field, n); }
      if kind.U256? { UintExactly(item, 32, kind.field, n); }
    case To(to) => AddressExactly(item, to);
    case Blob(b) => BytesExactly(item, b);
    case Accesses(es) => AccessListExactly(item, es);
    case Hashes(hs) => HashListExactly(item, hs);
  }

  /** No two encodings of a field decode to the same value. */
  lemma FieldCanonical(kind: FieldKind, a: Bytes, b: Bytes)
    requires DecodeField(kind, a).Ok? && DecodeField(kind, a) == DecodeField(kind, b)
    ensures a == b
  {
    hide DecodeField;
    FieldExactly(kind, a, DecodeField(kind, a).value);
    FieldExactly(kind, b, DecodeField(kind, a).value);
  }

  lemma FieldFramed(kind: FieldKind, v: FieldValue)
    requires Fits(kind, v)
    ensures Framed(EncField(kind, v))
  {
    hide Framed, MinBE, Concat, EncEntries, EncHashes, EncString, EncList;
    match v
    case Num(n) => StringIsFramed(MinBE(n));
    case To(to) => StringIsFramed(AddressBytes(to));
    case Blob(b) => StringIsFramed(b);
    case Accesses(es) => ListIsFramed(Concat(EncEntries(es)));
    case Hashes(hs) => ListIsFramed(Concat(EncHashes(hs)));
  }

  function DecodeFields(kinds: seq<FieldKind>, items: seq<Bytes>): (r: Result<seq<FieldValue>, EvmDecodeError>)
    requires |kinds| == |items|
  {
    if kinds == [] then Ok([])
    else
      var v :- DecodeField(kinds[0], items[0]);
      var more :- DecodeFields(kinds[1..], items[1..]);
      Ok([v] + more)
  }

  ghost predicate AllFit(kinds: seq<FieldKind>, vs: seq<FieldValue>) {
    |vs| == |kinds| && forall i :: 0 <= i < |kinds| ==> Fits(kinds[i], vs[i])
  }

  function EncFields(kinds: seq<FieldKind>, vs: seq<FieldValue>): (items: seq<Bytes>)
    requires AllFit(kinds, vs)
    ensures |items| == |kinds|
  {
    if kinds == [] then []
    else
      assert AllFit(kinds[1..], vs[1..]);
      [EncField(kinds[0], vs[0])] + EncFields(kinds[1..], vs[1..])
  }

  lemma {:induction false} FieldsFramed(kinds: seq<FieldKind>, vs: seq<FieldValue>)
    requires AllFit(kinds, vs)
    ensures AllFramed(EncFields(kinds, vs))
  {
    hide Framed, EncField, Fits;
    if kinds != [] {
      FieldFramed(kinds[0], vs[0]);
      FieldsFramed(kinds[1..], vs[1..]);
    }
  }

  lemma {:induction false} FieldsSound(kinds: seq<FieldKind>, items: seq<Bytes>)
    requires |kinds| == |items| && DecodeFields(kinds, items).Ok?
    ensures AllFit(kinds, DecodeFields(kinds, items).value)
    ensures items == EncFields(kinds, DecodeFields(kinds, items).value)
  {
    hide DecodeField, EncField, Fits;
    if kinds != [] {
      var v, more := DecodeField(kinds[0], items[0]).value, DecodeFields(kinds[1..], items[1..]).value;
      FieldExactly(kinds[0], items[0], v);
      FieldsSound(kinds[1..], items[1..]);
      assert ([v] + more)[1..] == more;
      assert items == [items[0]] + items[1..];
    }
  }

  lemma {:induction false} FieldsComplete(kinds: seq<FieldKind>, vs: seq<FieldValue>)
    requires AllFit(kinds, vs)
    ensures DecodeFields(kinds, EncFields(kinds, vs)) == Ok(vs)
  {
    hide DecodeField, EncField, Fits;
    if kinds != [] {
      FieldExactly(kinds[0], EncField(kinds[0], vs[0]), vs[0]);
      FieldsComplete(kinds[1..], vs[1..]);
      assert EncFields(kinds, vs)[1..] == EncFields(kinds[1..], vs[1..]);
      assert vs == [vs[0]] + vs[1..];
    }
  }

  /** `decode_list`, then the field decoders in order. */
  function DecodeRecord(kinds: seq<FieldKind>, raw: Bytes): Result<seq<FieldValue>, EvmDecodeError> {
    var items :- Lift(DecodeItems(raw));
    if |items| != |kinds| then Err(InvalidLength("envelope", |kinds|, |items|))
    else DecodeFields(kinds, items)
  }

  ghost predicate WellFormedRecord(kinds: seq<FieldKind>, vs: seq<FieldValue>) {
    AllFit(kinds, vs) && |Concat(EncFields(kinds, vs))| < LENGTH_LIMIT
  }

  function EncRecord(kinds: seq<FieldKind>, vs: seq<FieldValue>): Bytes
    requires WellFormedRecord(kinds, vs)
  {
    EncList(Concat(EncFields(kinds, vs)))
  }

  lemma RecordExactly(kinds: seq<FieldKind>, raw: Bytes, vs: seq<FieldValue>)
    ensures DecodeRecord(kinds, raw) == Ok(vs) <==> WellFormedRecord(kinds, vs) && raw == EncRecord(kinds, vs)
  {
    hide DecodeItems, DecodeFields, EncFields, EncList, Concat, AllFit;
    if DecodeRecord(kinds, raw) == Ok(vs) {
      var items := DecodeItems(raw).value;
      FieldsSound(kinds, items);
      DecodeItemsExactly(raw, items);
    }
    if WellFormedRecord(kinds, vs) && raw == EncRecord(kinds, vs) {
      FieldsComplete(kinds, vs);
      FieldsFramed(kinds, vs);
      DecodeItemsExactly(raw, EncFields(kinds, vs));
    }
  }

  // ------------------------------------------------------------ the four envelopes

  datatype Envelope =
    | Legacy(nonce: nat, gasPrice: nat, gasLimit: nat, to: Option<Bytes>, value: nat, data: Bytes,
             v: nat, r: Bytes, s: Bytes)
    | Eip2930(chainId: nat, nonce: nat, gasPrice: nat, gasLimit: nat, to: Option<Bytes>, value: nat, data: Bytes,
              accessList: seq<AccessListItem>, yParity: nat, r: Bytes, s: Bytes)
    | Eip1559(chainId: nat, nonce: nat, maxPriorityFeePerGas: nat, maxFeePerGas: nat, gasLimit: nat,
              to: Option<Bytes>, value: nat, data: Bytes, accessList: seq<AccessListItem>, yParity: nat, r: Bytes,
                  s: Bytes)
    | Eip4844(chainId: nat, nonce: nat, maxPriorityFeePerGas: nat, maxFeePerGas: nat, gasLimit: nat,
              to: Option<Bytes>, value: nat, data: Bytes, accessList: seq<AccessListItem>,
              maxFeePerBlobGas: nat, blobVersionedHashes: seq<Bytes>, yParity: nat, r: Bytes, s: Bytes)

  datatype EvmTxType = LegacyTx | Eip2930Tx | Eip1559Tx | Eip4844Tx

  function TypeOf(e: Envelope): EvmTxType {
    match e
    case Legacy(_, _, _, _, _, _, _, _, _) => LegacyTx
    case Eip2930(_, _, _, _, _, _, _, _, _, _, _) => Eip2930Tx
    case Eip1559(_, _, _, _, _, _, _, _, _, _, _, _) => Eip1559Tx
    case Eip4844(_, _, _, _, _, _, _, _, _, _, _, _, _, _) => Eip4844Tx
  }

  function Schema(t: EvmTxType): seq<FieldKind> {
    match t
    case LegacyTx =>
      [U64("nonce"), U256("gas_price"), U64("gas_limit"), Address, U256("value"), Data, U64("v"), Data, Data]
    case Eip2930Tx =>
      [U64("chain_id"), U64("nonce"), U256("gas_price"), U64("gas_limit"), Address, U256("value"), Data, AccessList,
       U64("y_parity"), Data, Data]
    case Eip1559Tx =>
      [U64("chain_id"), U64("nonce"), U256("max_priority_fee_per_gas"), U256("max_fee_per_gas"), U64("gas_limit"),
       Address, U256("value"), Data, AccessList, U64("y_parity"), Data, Data]
    case Eip4844Tx =>
      [U64("chain_id"), U64("nonce"), U256("max_priority_fee_per_gas"), U256("max_fee_per_gas"), U64("gas_limit"),
       Address, U256("value"), Data, AccessList, U256("max_fee_per_blob_gas"), HashList, U64("y_parity"), Data, Data]
  }

  /** The fields of an envelope in wire order. */
  function Values(e: Envelope): seq<FieldValue> {
    match e
    case Legacy(nonce, gasPrice, gasLimit, to, value, data, v, r, s) =>
      [Num(nonce), Num(gasPrice), Num(gasLimit), To(to), Num(value), Blob(data), Num(v), Blob(r), Blob(s)]
    case Eip2930(chainId, nonce, gasPrice, gasLimit, to, value, data, accessList, yParity, r, s) =>
      [Num(chainId), Num(nonce), Num(gasPrice), Num(gasLimit), To(to), Num(value), Blob(data), Accesses(accessList),
       Num(yParity), Blob(r), Blob(s)]
    case Eip1559(chainId, nonce, tip, maxFee, gasLimit, to, value, data, accessList, yParity, r, s) =>
      [Num(chainId), Num(nonce), Num(tip), Num(maxFee), Num(gasLimit), To(to), Num(value), Blob(data),
       Accesses(accessList), Num(yParity), Blob(r), Blob(s)]
    case Eip4844(chainId, nonce, tip, maxFee, gasLimit, to, value, data, accessList, blobFee, blobs, yParity, r, s) =>
      [Num(chainId), Num(nonce), Num(tip), Num(maxFee), Num(gasLimit), To(to), Num(value), Blob(data),
       Accesses(accessList), Num(blobFee), Hashes(blobs), Num(yParity), Blob(r), Blob(s)]
  }

  ghost predicate WellFormed(e: Envelope) {
    WellFormedRecord(Schema(TypeOf(e)), Values(e))
  }

  /** The canonical bytes: the EIP-2718 type byte, none for legacy, then the field list. */
  function Encode(e: Envelope): Bytes
    requires WellFormed(e)
  {
    var body := EncRecord(Schema(TypeOf(e)), Values(e));
    match TypeOf(e)
    case LegacyTx => body
    case Eip2930Tx => [0x01] + body
    case Eip1559Tx => [0x02] + body
    case Eip4844Tx => [0x03] + body
  }

  function NumOf(v: FieldValue): nat { if v.Num? then v.n else 0 }
  function ToOf(v: FieldValue): Option<Bytes> { if v.To? then v.to else None }
  function BlobOf(v: FieldValue): Bytes { if v.Blob? then v.bytes else [] }
  function AccessesOf(v: FieldValue): seq<AccessListItem> { if v.Accesses? then v.entries else [] }
  function HashesOf(v: FieldValue): seq<Bytes> { if v.Hashes? then v.hashes else [] }

  predicate SameSort(kind: FieldKind, v: FieldValue) {
    match kind
    case U64(_) => v.Num?
    case U256(_) => v.Num?
    case Address => v.To?
    case Data => v.Blob?
    case AccessList => v.Accesses?
    case HashList => v.Hashes?
  }

  function Build(t: EvmTxType, vs: seq<FieldValue>): (e: Envelope)
    requires |vs| == |Schema(t)|
  {
    match t
    case LegacyTx =>
      Legacy(NumOf(vs[0]), NumOf(vs[1]), NumOf(vs[2]), ToOf(vs[3]), NumOf(vs[4]), BlobOf(vs[5]),
             NumOf(vs[6]), BlobOf(vs[7]), BlobOf(vs[8]))
    case Eip2930Tx =>
      Eip2930(NumOf(vs[0]), NumOf(vs[1]), NumOf(vs[2]), NumOf(vs[3]), ToOf(vs[4]), NumOf(vs[5]), BlobOf(vs[6]),
              AccessesOf(vs[7]), NumOf(vs[8]), BlobOf(vs[9]), BlobOf(vs[10]))
    case Eip1559Tx =>
      Eip1559(NumOf(vs[0]), NumOf(vs[1]), NumOf(vs[2]), NumOf(vs[3]), NumOf(vs[4]), ToOf(vs[5]), NumOf(vs[6]),
              BlobOf(vs[7]),
              AccessesOf(vs[8]), NumOf(vs[9]), BlobOf(vs[10]), BlobOf(vs[11]))
    case Eip4844Tx =>
      Eip4844(NumOf(vs[0]), NumOf(vs[1]), NumOf(vs[2]), NumOf(vs[3]), NumOf(vs[4]), ToOf(vs[5]), NumOf(vs[6]),
              BlobOf(vs[7]),
              AccessesOf(vs[8]), NumOf(vs[9]), HashesOf(vs[10]), NumOf(vs[11]), BlobOf(vs[12]), BlobOf(vs[13]))
  }

  lemma BuildValues(t: EvmTxType, vs: seq<FieldValue>, e: Envelope)
    requires AllFit(Schema(t), vs)
    ensures Build(t, vs) == e <==> TypeOf(e) == t && Values(e) == vs
  {
    forall i | 0 <= i < |vs| ensures SameSort(Schema(t)[i], vs[i]) {
      hide Schema;
      assert Fits(Schema(t)[i], vs[i]);
    }
    BuildThenValues(t, vs);
    if TypeOf(e) == t && Values(e) == vs { ValuesThenBuild(e); }
  }

  lemma BuildThenValues(t: EvmTxType, vs: seq<FieldValue>)
    requires |vs| == |Schema(t)|
    requires forall i :: 0 <= i < |vs| ==> SameSort(Schema(t)[i], vs[i])
    ensures TypeOf(Build(t, vs)) == t && Values(Build(t, vs)) == vs
  {
    var ws := Values(Build(t, vs));
    assert |ws| == |vs|;
    forall i | 0 <= i < |vs| ensures ws[i] == vs[i] {
      assert SameSort(Schema(t)[i], vs[i]);
    }
  }

  lemma ValuesThenBuild(e: Envelope)
    ensures |Values(e)| == |Schema(TypeOf(e))| && Build(TypeOf(e), Values(e)) == e
  {
  }

  function DecodeEnvelopeAs(t: EvmTxType, raw: Bytes): Result<Envelope, EvmDecodeError> {
    var vs := DecodeRecord(Schema(t), raw);
    if vs.Err? then Err(vs.error)
    else
      RecordExactly(Schema(t), raw, vs.value);
      Ok(Build(t, vs.value))
  }

  /** `decode_evm_tx`: dispatch on the first byte. */
  function DecodeEnvelope(raw: Bytes): Result<Envelope, EvmDecodeError> {
    if raw == [] then Err(Empty)
    else if raw[0] == 0x01 then DecodeEnvelopeAs(Eip2930Tx, raw[1..])
    else if raw[0] == 0x02 then DecodeEnvelopeAs(Eip1559Tx, raw[1..])
    else if raw[0] == 0x03 then DecodeEnvelopeAs(Eip4844Tx, raw[1..])
    else if raw[0] <= 0x7f then Err(UnknownType(raw[0]))
    else DecodeEnvelopeAs(LegacyTx, raw)
  }

  lemma EnvelopeAsExactly(t: EvmTxType, raw: Bytes, e: Envelope)
    ensures DecodeEnvelopeAs(t, raw) == Ok(e)
            <==> TypeOf(e) == t && WellFormed(e) && raw == EncRecord(Schema(t), Values(e))
  {
    hide DecodeRecord, EncRecord, WellFormedRecord, Build, Values, Schema;
    var vs := DecodeRecord(Schema(t), raw);
    if vs.Ok? {
      RecordExactly(Schema(t), raw, vs.value);
      RecordFits(Schema(t), vs.value);
      BuildValues(t, vs.value, e);
    }
    RecordExactly(Schema(t), raw, Values(e));
    if TypeOf(e) == t && WellFormed(e) && raw == EncRecord(Schema(t), Values(e)) {
      assert vs == Ok(Values(e));
    }
  }

  lemma RecordFits(kinds: seq<FieldKind>, vs: seq<FieldValue>)
    requires WellFormedRecord(kinds, vs)
    ensures AllFit(kinds, vs)
  {
  }

  lemma RecordStartsHigh(kinds: seq<FieldKind>, vs: seq<FieldValue>)
    requires WellFormedRecord(kinds, vs)
    ensures EncRecord(kinds, vs) != [] && EncRecord(kinds, vs)[0] >= 0xc0
  {
    hide Concat, EncFields, MinBE;
  }

  /**
   The decoder is the exact inverse of the canonical encoder: a byte string
   decodes to an envelope if and only if it is that envelope's encoding.
   */
  lemma DecodeExactly(raw: Bytes, e: Envelope)
    ensures DecodeEnvelope(raw) == Ok(e) <==> WellFormed(e) && raw == Encode(e)
  {
    hide DecodeEnvelopeAs, EncRecord, Values, Schema, WellFormedRecord;
    if raw != [] {
      EnvelopeAsExactly(Eip2930Tx, raw[1..], e);
      EnvelopeAsExactly(Eip1559Tx, raw[1..], e);
      EnvelopeAsExactly(Eip4844Tx, raw[1..], e);
      EnvelopeAsExactly(LegacyTx, raw, e);
      assert raw == [raw[0]] + raw[1..];
    }
    if WellFormed(e) {
      RecordStartsHigh(Schema(TypeOf(e)), Values(e));
    }
  }

  /** Distinct envelopes have distinct encodings. */
  lemma EncodeInjective(a: Envelope, b: Envelope)
    requires WellFormed(a) && WellFormed(b) && Encode(a) == Encode(b)
    ensures a == b
  {
    hide DecodeEnvelope, WellFormed, Encode;
    DecodeExactly(Encode(a), a);
    DecodeExactly(Encode(a), b);
  }

  // ------------------------------------------------------------ what the policy engine sees

  datatype DecodedEvmTx = DecodedEvmTx(
    txType: EvmTxType, chainId: Option<nat>, nonce: nat, to: Option<Bytes>, value: nat, gasLimit: nat,
    maxFeePerGas: Option<nat>, maxPriorityFeePerGas: Option<nat>, gasPrice: Option<nat>,
    data: Bytes, methodSelector: Option<Bytes>, accessList: seq<AccessListItem>, blobVersionedHashes: seq<Bytes>)

  function FirstFour(data: Bytes): Option<Bytes> {
    if |data| < 4 then None else Some(data[..4])
  }

  /** EIP-155: the chain id carried by `v`, none below 35. */
  function ChainIdOfV(v: nat): Option<nat> {
    if v >= 35 then Some((v - 35) / 2) else None
  }

  function View(e: Envelope): DecodedEvmTx {
    match e
    case Legacy(nonce, gasPrice, gasLimit, to, value, data, v, _, _) =>
      DecodedEvmTx(LegacyTx, ChainIdOfV(v), nonce, to, value, gasLimit, None, None, Some(gasPrice),
                   data, FirstFour(data), [], [])
    case Eip2930(chainId, nonce, gasPrice, gasLimit, to, value, data, accessList, _, _, _) =>
      DecodedEvmTx(Eip2930Tx, Some(chainId), nonce, to, value, gasLimit, None, None, Some(gasPrice),
                   data, FirstFour(data), accessList, [])
    case Eip1559(chainId, nonce, tip, maxFee, gasLimit, to, value, data, accessList, _, _, _) =>
      DecodedEvmTx(Eip1559Tx, Some(chainId), nonce, to, value, gasLimit, Some(maxFee), Some(tip), None,
                   data, FirstFour(data), accessList, [])
    case Eip4844(chainId, nonce, tip, maxFee, gasLimit, to, value, data, accessList, _, blobs, _, _, _) =>
      DecodedEvmTx(Eip4844Tx, Some(chainId), nonce, to, value, gasLimit, Some(maxFee), Some(tip), None,
                   data, FirstFour(data), accessList, blobs)
  }

  function DecodeEvmTx(raw: Bytes): Result<DecodedEvmTx, EvmDecodeError> {
    var e :- DecodeEnvelope(raw);
    Ok(View(e))
  }

  /**
   What the policy engine sees of a transaction's bytes is the transaction: every
   field of the envelope, for each of the four types.
   */
  lemma TransactionReadBack(e: Envelope)
    requires WellFormed(e)
    ensures DecodeEvmTx(Encode(e)).Ok?
    ensures var tx := DecodeEvmTx(Encode(e)).value;
            && tx.nonce == e.nonce && tx.to == e.to && tx.value == e.value && tx.gasLimit == e.gasLimit
            && tx.data == e.data
            && (tx.methodSelector == if |e.data| >= 4 then Some(e.data[..4]) else None)
            && (e.Legacy? ==>
                  && tx.txType.LegacyTx? && tx.gasPrice == Some(e.gasPrice)
                  && (tx.chainId == if e.v >= 35 then Some((e.v - 35) / 2) else None))
            && (e.Eip2930? ==> tx.txType.Eip2930Tx? && tx.gasPrice == Some(e.gasPrice))
            && (e.Eip1559? ==> tx.txType.Eip1559Tx?)
            && (e.Eip4844? ==> tx.txType.Eip4844Tx?)
            && (e.Legacy? || e.Eip2930? ==> tx.maxFeePerGas == None && tx.maxPriorityFeePerGas == None)
            && (e.Eip1559? || e.Eip4844? ==>
                  && tx.gasPrice == None && tx.maxFeePerGas == Some(e.maxFeePerGas)
                  && tx.maxPriorityFeePerGas == Some(e.maxPriorityFeePerGas))
            && (e.Legacy? ==> tx.accessList == [])
            && (!e.Legacy? ==> tx.chainId == Some(e.chainId) && tx.accessList == e.accessList)
            && (tx.blobVersionedHashes == if e.Eip4844? then e.blobVersionedHashes else [])
  {
    hide DecodeEnvelope, Encode, WellFormed;
    DecodeExactly(Encode(e), e);
  }

  /** And nothing else is seen: what decodes is some transaction's bytes. */
  lemma SeenIsTransaction(raw: Bytes) returns (e: Envelope)
    requires DecodeEvmTx(raw).Ok?
    ensures WellFormed(e) && raw == Encode(e)
  {
    hide DecodeEnvelope, Encode, WellFormed, View;
    e := DecodeEnvelope(raw).value;
    DecodeExactly(raw, e);
  }

  // ------------------------------------------------------------ the wire, field by field

  lemma {:induction false} EncFieldsAt(kinds: seq<FieldKind>, vs: seq<FieldValue>, i: nat)
    requires AllFit(kinds, vs) && i < |kinds|
    ensures Fits(kinds[i], vs[i]) && EncFields(kinds, vs)[i] == EncField(kinds[i], vs[i])
    decreases |kinds|
  {
    hide Fits, EncField;
    assert Fits(kinds[i], vs[i]);
    if i > 0 {
      assert AllFit(kinds[1..], vs[1..]) by {
        forall k | 0 <= k < |kinds| - 1 ensures Fits(kinds[1..][k], vs[1..][k]) {
          assert Fits(kinds[k + 1], vs[k + 1]);
        }
      }
      EncFieldsAt(kinds[1..], vs[1..], i - 1);
    }
  }

  /** An item that holds a number of at most `width` bytes, a byte string, a recipient, an access list, hashes. */
  ghost predicate HoldsNumber(item: Bytes, n: nat, width: nat) {
    n < Pow256(width) && |MinBE(n)| < LENGTH_LIMIT && item == EncString(MinBE(n))
  }

  ghost predicate HoldsBytes(item: Bytes, b: Bytes) {
    |b| < LENGTH_LIMIT && item == EncString(b)
  }

  ghost predicate HoldsRecipient(item: Bytes, to: Option<Bytes>) {
    if to.None? then item == EncString([]) else |to.value| == 20 && item == EncString(to.value)
  }

  ghost predicate HoldsList(item: Bytes, items: seq<Bytes>) {
    |Concat(items)| < LENGTH_LIMIT && item == EncList(Concat(items))
  }

  ghost predicate HoldsHashes(item: Bytes, hs: seq<Bytes>) {
    exists items :: HashItems(items, hs) && HoldsList(item, items)
  }

  ghost predicate HashItems(items: seq<Bytes>, hs: seq<Bytes>) {
    |items| == |hs| && forall i :: 0 <= i < |hs| ==> |hs[i]| == 32 && items[i] == EncString(hs[i])
  }

  /** An access-list entry is a list of two: the address, then the list of its keys. */
  ghost predicate HoldsEntry(item: Bytes, e: AccessListItem) {
    && |e.address| == 20
    && exists keys :: HoldsHashes(keys, e.storageKeys) && HoldsList(item, [EncString(e.address), keys])
  }

  ghost predicate EntryItemsHold(items: seq<Bytes>, es: seq<AccessListItem>) {
    |items| == |es| && forall i :: 0 <= i < |es| ==> HoldsEntry(items[i], es[i])
  }

  ghost predicate HoldsAccesses(item: Bytes, es: seq<AccessListItem>) {
    exists items :: EntryItemsHold(items, es) && HoldsList(item, items)
  }

  lemma {:induction false} EncHashesAt(hs: seq<Bytes>, i: nat)
    requires AllWidth(hs, 32) && i < |hs|
    ensures EncHashes(hs)[i] == EncString(hs[i])
  {
    hide EncString;
    EncHashesUnfold(hs);
    if i > 0 { EncHashesAt(hs[1..], i - 1); }
  }

  lemma HashesHold(item: Bytes, hs: seq<Bytes>)
    ensures HoldsHashes(item, hs) <==> WellFormedHashes(hs) && item == EncHashList(hs)
  {
    hide EncString, EncList, Concat, EncHashes;
    if AllWidth(hs, 32) {
      forall i | 0 <= i < |hs| ensures EncHashes(hs)[i] == EncString(hs[i]) { EncHashesAt(hs, i); }
      if WellFormedHashes(hs) && item == EncHashList(hs) {
        assert HashItems(EncHashes(hs), hs) && HoldsList(item, EncHashes(hs));
      }
    }
    if HoldsHashes(item, hs) {
      var items :| HashItems(items, hs) && HoldsList(item, items);
      assert items == EncHashes(hs);
    }
  }

  lemma EntryHolds(item: Bytes, e: AccessListItem)
    ensures HoldsEntry(item, e) <==> WellFormedEntry(e) && item == EncEntry(e)
  {
    hide EncString, EncList, Concat, EncHashes, HoldsHashes;
    if WellFormedEntry(e) && item == EncEntry(e) {
      var keys := EncHashList(e.storageKeys);
      HashesHold(keys, e.storageKeys);
      assert HoldsHashes(keys, e.storageKeys) && HoldsList(item, [EncString(e.address), keys]);
    }
    if HoldsEntry(item, e) {
      var keys :| HoldsHashes(keys, e.storageKeys) && HoldsList(item, [EncString(e.address), keys]);
      HashesHold(keys, e.storageKeys);
    }
  }

  lemma {:induction false} EncEntriesAt(es: seq<AccessListItem>, i: nat)
    requires AllEntries(es) && i < |es|
    ensures i < |EncEntries(es)| && EncEntries(es)[i] == EncEntry(es[i])
  {
    hide EncEntry, WellFormedEntry;
    if i > 0 { EncEntriesAt(es[1..], i - 1); }
  }

  lemma {:induction false} EncEntriesLength(es: seq<AccessListItem>)
    requires AllEntries(es)
    ensures |EncEntries(es)| == |es|
  {
    hide EncEntry, WellFormedEntry;
    if es != [] { EncEntriesLength(es[1..]); }
  }

  lemma AccessesHold(item: Bytes, es: seq<AccessListItem>)
    ensures HoldsAccesses(item, es) <==> WellFormedAccessList(es) && item == EncAccessList(es)
  {
    hide EncList, Concat, EncEntries, HoldsEntry, WellFormedEntry, EncEntry;
    if WellFormedAccessList(es) && item == EncAccessList(es) {
      var items := EncEntries(es);
      EncEntriesLength(es);
      forall i | 0 <= i < |es| ensures HoldsEntry(items[i], es[i]) {
        EncEntriesAt(es, i);
        EntryHolds(items[i], es[i]);
      }
      assert EntryItemsHold(items, es) && HoldsList(item, items);
    }
    if HoldsAccesses(item, es) {
      var items :| EntryItemsHold(items, es) && HoldsList(item, items);
      ItemsAreEntries(items, es);
    }
  }

  lemma ItemsAreEntries(items: seq<Bytes>, es: seq<AccessListItem>)
    requires EntryItemsHold(items, es)
    ensures AllEntries(es) && items == EncEntries(es)
  {
    hide EncEntries, HoldsEntry, WellFormedEntry, EncEntry;
    forall i | 0 <= i < |es| ensures WellFormedEntry(es[i]) && items[i] == EncEntry(es[i]) {
      EntryHolds(items[i], es[i]);
    }
    EncEntriesLength(es);
    forall i | 0 <= i < |es| ensures EncEntries(es)[i] == EncEntry(es[i]) {
      EncEntriesAt(es, i);
    }
  }

  /** What an item of the field list holds: a number of bounded width, a string, a recipient, accesses, hashes. */
  datatype Slot =
    | Uint(n: nat, width: nat)
    | Text(bytes: Bytes)
    | Recipient(to: Option<Bytes>)
    | AccessSlot(entries: seq<AccessListItem>)
    | HashSlot(hashes: seq<Bytes>)

  ghost predicate Holds(item: Bytes, slot: Slot) {
    match slot
    case Uint(n, width) => HoldsNumber(item, n, width)
    case Text(b) => HoldsBytes(item, b)
    case Recipient(to) => HoldsRecipient(item, to)
    case AccessSlot(es) => HoldsAccesses(item, es)
    case HashSlot(hs) => HoldsHashes(item, hs)
  }

  /** The field lists of the four types, as the EIPs lay them out. */
  function Slots(e: Envelope): seq<Slot> {
    match e
    case Legacy(nonce, gasPrice, gasLimit, to, value, data, v, r, s) =>
      [Uint(nonce, 8), Uint(gasPrice, 32), Uint(gasLimit, 8), Recipient(to), Uint(value, 32), Text(data),
       Uint(v, 8), Text(r), Text(s)]
    case Eip2930(chainId, nonce, gasPrice, gasLimit, to, value, data, accessList, yParity, r, s) =>
      [Uint(chainId, 8), Uint(nonce, 8), Uint(gasPrice, 32), Uint(gasLimit, 8), Recipient(to), Uint(value, 32),
       Text(data), AccessSlot(accessList), Uint(yParity, 8), Text(r), Text(s)]
    case Eip1559(chainId, nonce, tip, maxFee, gasLimit, to, value, data, accessList, yParity, r, s) =>
      [Uint(chainId, 8), Uint(nonce, 8), Uint(tip, 32), Uint(maxFee, 32), Uint(gasLimit, 8), Recipient(to),
       Uint(value, 32), Text(data), AccessSlot(accessList), Uint(yParity, 8), Text(r), Text(s)]
    case Eip4844(chainId, nonce, tip, maxFee, gasLimit, to, value, data, accessList, blobFee, blobs, yParity, r, s) =>
      [Uint(chainId, 8), Uint(nonce, 8), Uint(tip, 32), Uint(maxFee, 32), Uint(gasLimit, 8), Recipient(to),
       Uint(value, 32), Text(data), AccessSlot(accessList), Uint(blobFee, 32), HashSlot(blobs), Uint(yParity, 8),
       Text(r), Text(s)]
  }

  ghost predicate Layout(e: Envelope, items: seq<Bytes>) {
    |items| == |Slots(e)| && forall i :: 0 <= i < |items| ==> Holds(items[i], Slots(e)[i])
  }

  function SlotOf(kind: FieldKind, v: FieldValue): Slot {
    match v
    case Num(n) => Uint(n, if kind.U64? then 8 else 32)
    case To(to) => Recipient(to)
    case Blob(b) => Text(b)
    case Accesses(es) => AccessSlot(es)
    case Hashes(hs) => HashSlot(hs)
  }

  predicate SlotMatches(e: Envelope, i: nat) {
    && |Slots(e)| == |Schema(TypeOf(e))| == |Values(e)|
    && (i < |Slots(e)| ==>
          && Slots(e)[i] == SlotOf(Schema(TypeOf(e))[i], Values(e)[i])
          && SameSort(Schema(TypeOf(e))[i], Values(e)[i]))
  }

  lemma SlotsAt(e: Envelope, i: nat)
    ensures SlotMatches(e, i)
  {
    hide SlotMatches;
    match e
    case Legacy(_, _, _, _, _, _, _, _, _) => LegacySlotsAt(e, i);
    case Eip2930(_, _, _, _, _, _, _, _, _, _, _) => Eip2930SlotsAt(e, i);
    case Eip1559(_, _, _, _, _, _, _, _, _, _, _, _) => Eip1559SlotsAt(e, i);
    case Eip4844(_, _, _, _, _, _, _, _, _, _, _, _, _, _) => Eip4844SlotsAt(e, i);
  }

  lemma LegacySlotsAt(e: Envelope, i: nat)
    requires e.Legacy?
    ensures SlotMatches(e, i)
  {
  }

  lemma Eip2930SlotsAt(e: Envelope, i: nat)
    requires e.Eip2930?
    ensures SlotMatches(e, i)
  {
  }

  lemma Eip1559SlotsAt(e: Envelope, i: nat)
    requires e.Eip1559?
    ensures SlotMatches(e, i)
  {
  }

  lemma Eip4844SlotsAt(e: Envelope, i: nat)
    requires e.Eip4844?
    ensures SlotMatches(e, i)
  {
  }

  lemma HoldsExactly(kind: FieldKind, item: Bytes, v: FieldValue)
    requires SameSort(kind, v)
    ensures Holds(item, SlotOf(kind, v)) <==> Fits(kind, v) && item == EncField(kind, v)
  {
    hide MinBE, EncString, WellFormedAccessList, WellFormedHashes, EncAccessList, EncHashList, Pow256;
    hide HoldsAccesses, HoldsHashes;
    match v
    case Num(n) =>
      MinBELength(n, 8);
      MinBELength(n, 32);
    case Accesses(es) => AccessesHold(item, es);
    case Hashes(hs) => HashesHold(item, hs);
    case _ =>
  }

  lemma LayoutExactly(e: Envelope, items: seq<Bytes>)
    ensures Layout(e, items)
            <==> AllFit(Schema(TypeOf(e)), Values(e)) && items == EncFields(Schema(TypeOf(e)), Values(e))
  {
    hide Holds, Fits, EncField, EncFields, Slots, Schema, Values, SlotOf, SameSort;
    var kinds, vs := Schema(TypeOf(e)), Values(e);
    SlotsAt(e, 0);
    if |items| == |kinds| {
      forall i | 0 <= i < |kinds|
        ensures Holds(items[i], Slots(e)[i]) <==> Fits(kinds[i], vs[i]) && items[i] == EncField(kinds[i], vs[i])
      {
        SlotsAt(e, i);
        HoldsExactly(kinds[i], items[i], vs[i]);
      }
      if AllFit(kinds, vs) {
        forall i | 0 <= i < |kinds| ensures EncFields(kinds, vs)[i] == EncField(kinds[i], vs[i]) {
          EncFieldsAt(kinds, vs, i);
        }
      }
    }
  }

  /** The byte before the field list; legacy transactions have none. */
  function TypeByte(e: Envelope): Bytes {
    match e
    case Legacy(_, _, _, _, _, _, _, _, _) => []
    case Eip2930(_, _, _, _, _, _, _, _, _, _, _) => [0x01]
    case Eip1559(_, _, _, _, _, _, _, _, _, _, _, _) => [0x02]
    case Eip4844(_, _, _, _, _, _, _, _, _, _, _, _, _, _) => [0x03]
  }

  /** The bytes are the type byte and one list of exactly these items. */
  ghost predicate OnWire(e: Envelope, items: seq<Bytes>, raw: Bytes) {
    Layout(e, items) && |Concat(items)| < LENGTH_LIMIT && raw == TypeByte(e) + EncList(Concat(items))
  }

  /** The decoder accepts a byte string as a transaction exactly when it lays out that transaction's fields. */
  lemma WireExactly(raw: Bytes, e: Envelope)
    ensures DecodeEnvelope(raw) == Ok(e) <==> exists items :: OnWire(e, items, raw)
  {
    hide Layout, Values, Schema, EncFields, EncList, Concat, DecodeEnvelope, AllFit;
    var kinds, vs := Schema(TypeOf(e)), Values(e);
    DecodeExactly(raw, e);
    if WellFormed(e) && raw == Encode(e) {
      RecordFits(kinds, vs);
      var items := EncFields(kinds, vs);
      LayoutExactly(e, items);
      assert OnWire(e, items, raw);
    }
    if items: seq<Bytes> :| OnWire(e, items, raw) {
      LayoutExactly(e, items);
    }
  }

  // ------------------------------------------------------------ what is refused, and how

  /** An error from inside a list: bad RLP, or a field of the wrong length. */
  predicate FromFields(error: EvmDecodeError) {
    error.Malformed? || error.InvalidLength?
  }

  lemma {:induction false} HashesErr(entries: seq<Bytes>)
    ensures DecodeHashes(entries).Err? ==> FromFields(DecodeHashes(entries).error)
  {
    hide DecodeString;
    if entries != [] { HashesErr(entries[1..]); }
  }

  lemma EntryErr(entry: Bytes)
    ensures DecodeEntry(entry).Err? ==> FromFields(DecodeEntry(entry).error)
  {
    hide DecodeItems, DecodeString, DecodeHashes;
    var items := DecodeItems(entry);
    if items.Ok? && |items.value| == 2 {
      var keys := DecodeItems(items.value[1]);
      if keys.Ok? { HashesErr(keys.value); }
    }
  }

  lemma {:induction false} EntriesErr(entries: seq<Bytes>)
    ensures DecodeEntries(entries).Err? ==> FromFields(DecodeEntries(entries).error)
  {
    hide DecodeEntry;
    if entries != [] {
      EntryErr(entries[0]);
      EntriesErr(entries[1..]);
    }
  }

  lemma FieldErr(kind: FieldKind, item: Bytes)
    ensures DecodeField(kind, item).Err? ==> FromFields(DecodeField(kind, item).error)
  {
    hide DecodeItems, DecodeString, DecodeHashes, DecodeEntries;
    var items := DecodeItems(item);
    if items.Ok? {
      HashesErr(items.value);
      EntriesErr(items.value);
    }
  }

  lemma {:induction false} FieldsErr(kinds: seq<FieldKind>, items: seq<Bytes>)
    requires |kinds| == |items|
    ensures DecodeFields(kinds, items).Err? ==> FromFields(DecodeFields(kinds, items).error)
  {
    hide DecodeField;
    if kinds != [] {
      FieldErr(kinds[0], items[0]);
      FieldsErr(kinds[1..], items[1..]);
    }
  }

  lemma EnvelopeErr(t: EvmTxType, raw: Bytes)
    ensures DecodeEnvelopeAs(t, raw).Err? ==> FromFields(DecodeEnvelopeAs(t, raw).error)
  {
    hide DecodeFields, DecodeItems, Schema;
    var items := DecodeItems(raw);
    if items.Ok? && |items.value| == |Schema(t)| { FieldsErr(Schema(t), items.value); }
  }

  /** Empty input and unknown type bytes are told apart from everything else, exactly. */
  lemma RefusedByFirstByte(raw: Bytes, b: byte)
    ensures DecodeEvmTx(raw) == Err(Empty) <==> raw == []
    ensures DecodeEvmTx(raw) == Err(UnknownType(b))
            <==> raw != [] && raw[0] == b && b < 0x80 && b != 0x01 && b != 0x02 && b != 0x03
  {
    hide DecodeEnvelopeAs, View;
    if raw != [] {
      EnvelopeErr(Eip2930Tx, raw[1..]);
      EnvelopeErr(Eip1559Tx, raw[1..]);
      EnvelopeErr(Eip4844Tx, raw[1..]);
      EnvelopeErr(LegacyTx, raw);
    }
  }
}
