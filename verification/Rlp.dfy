/**
 Recursive Length Prefix encoding (Appendix B of the Ethereum Yellow Paper): the
 encoder that crates/qfc-audit/src/chain_anchor.rs hand-rolls, and the header
 decoder that crates/qfc-policy/src/decoders/evm.rs builds on.

 The main results say that the two are inverse in both directions: what the
 encoder writes is read back, and the decoder accepts nothing else.
 */
module Rlp {
  import opened Bytes
  import opened Results

  /** Lengths are `usize` values: 64 bits. */
  const LENGTH_LIMIT := 0x1_0000_0000_0000_0000

  datatype RlpError =
    | InputTooShort
    | NonCanonicalSingleByte
    | NonCanonicalSize
    | LeadingZero
    | UnexpectedList

  // ------------------------------------------------------------ encoding

  const STRING_BASE: byte := 0x80
  const LIST_BASE: byte := 0xc0

  predicate Base(base: byte) {
    base == STRING_BASE || base == LIST_BASE
  }

  lemma LengthOfLength(len: nat)
    requires 55 < len < LENGTH_LIMIT
    ensures 1 <= |MinBE(len)| <= 8
  {
    MachineWidths();
    MinBELength(len, 8);
    MinBELength(len, 0);
  }

  function LenPrefix(len: nat, base: byte): (r: Bytes)
    requires len < LENGTH_LIMIT && Base(base)
    ensures 1 <= |r| <= 9
  {
    if len <= 55 then [base + len]
    else
      LengthOfLength(len);
      [base + 55 + |MinBE(len)|] + MinBE(len)
  }

  function EncString(b: Bytes): (r: Bytes)
    requires |b| < LENGTH_LIMIT
  {
    if |b| == 1 && b[0] < 0x80 then b else LenPrefix(|b|, STRING_BASE) + b
  }

  function EncList(payload: Bytes): (r: Bytes)
    requires |payload| < LENGTH_LIMIT
  {
    LenPrefix(|payload|, LIST_BASE) + payload
  }

  /** A number: its shortest big-endian form as a string; zero is the empty string. */
  function EncScalar(n: nat): (r: Bytes)
    requires |MinBE(n)| < LENGTH_LIMIT
  {
    EncString(MinBE(n))
  }

  function Encoded(list: bool, payload: Bytes): Bytes
    requires |payload| < LENGTH_LIMIT
  {
    if list then EncList(payload) else EncString(payload)
  }

  /** Known encodings: empty and single-byte strings, a short word, an empty list, a string of 56 bytes. */
  lemma KnownEncodings(long: Bytes)
    requires |long| == 56
    ensures EncString([]) == [0x80] && EncString([0x0f]) == [0x0f] && EncString([0x80]) == [0x81, 0x80]
    ensures EncString(AsciiOf("dog")) == [0x83] + AsciiOf("dog") && EncList([]) == [0xc0]
    ensures EncString(long) == [0xb8, 0x38] + long && EncList(long) == [0xf8, 0x38] + long
    ensures EncScalar(0) == [0x80] && EncScalar(1024) == [0x82, 0x04, 0x00]
  {
    assert MinBE(56) == [0x38] by { assert MinBE(56 / 256) == []; }
    assert MinBE(1024) == [0x04, 0x00] by {
      assert MinBE(0) == [];
      assert MinBE(4) == MinBE(0) + [0x04];
      assert MinBE(1024) == MinBE(4) + [0x00];
    }
  }

  // ------------------------------------------------------------ headers

  datatype Header = Header(list: bool, payloadLength: nat)

  function Bounded(h: Header, rest: Bytes): Result<(Header, Bytes), RlpError> {
    if |rest| < h.payloadLength then Err(InputTooShort) else Ok((h, rest))
  }

  /** Reads one header; the second result is the cursor, at the start of the payload. */
  function DecodeHeader(buf: Bytes): (r: Result<(Header, Bytes), RlpError>)
    ensures r.Ok? ==> r.value.0.payloadLength <= |r.value.1| <= |buf|
    ensures r.Ok? ==> r.value.1 == buf[|buf| - |r.value.1|..]
    ensures r.Ok? ==> |r.value.1| - r.value.0.payloadLength < |buf|
  {
    if buf == [] then Err(InputTooShort)
    else
      var b, rest := buf[0], buf[1..];
      if b < 0x80 then Ok((Header(false, 1), buf))
      else if b <= 0xb7 then
        var len := b - 0x80;
        if len == 1 && rest == [] then Err(InputTooShort)
        else if len == 1 && rest[0] < 0x80 then Err(NonCanonicalSingleByte)
        else Bounded(Header(false, len), rest)
      else if b <= 0xbf || b >= 0xf8 then
        var list := b >= 0xf8;
        var lenOfLen := b - (if list then 0xf7 else 0xb7);
        if |rest| < lenOfLen then Err(InputTooShort)
        else if rest[0] == 0 then Err(LeadingZero)
        else
          var len := FromBE(rest[..lenOfLen]);
          if len < 56 then Err(NonCanonicalSize)
          else Bounded(Header(list, len), rest[lenOfLen..])
      else Bounded(Header(true, b - 0xc0), rest)
  }

  /** Reading back what was written, whatever follows it. */
  lemma DecodeEncoded(list: bool, payload: Bytes, tail: Bytes)
    requires |payload| < LENGTH_LIMIT
    ensures DecodeHeader(Encoded(list, payload) + tail) == Ok((Header(list, |payload|), payload + tail))
  {
    if !list && |payload| == 1 && payload[0] < 0x80 {
    } else if |payload| <= 55 {
      DecodeShort(list, payload, tail);
    } else {
      DecodeLong(list, payload, tail);
    }
  }

  lemma DecodeShort(list: bool, payload: Bytes, tail: Bytes)
    requires |payload| <= 55 && (list || !(|payload| == 1 && payload[0] < 0x80))
    ensures DecodeHeader(Encoded(list, payload) + tail) == Ok((Header(list, |payload|), payload + tail))
  {
    var buf := Encoded(list, payload) + tail;
    assert buf[1..] == payload + tail;
    if |payload| == 1 { assert buf[1..][0] == payload[0]; }
  }

  lemma DecodeLong(list: bool, payload: Bytes, tail: Bytes)
    requires 55 < |payload| < LENGTH_LIMIT
    ensures DecodeHeader(Encoded(list, payload) + tail) == Ok((Header(list, |payload|), payload + tail))
  {
    hide FromBE, MinBE, DecodeHeader;
    var lb := MinBE(|payload|);
    LengthOfLength(|payload|);
    LongHeader(list, lb, payload + tail);
    var rest := payload + tail;
    assert rest[..|payload|] == payload && rest[|payload|..] == tail;
    JoinLong(list, (if list then 0xf7 else 0xb7) + |lb|, lb, rest, |payload|);
  }

  lemma LongHeader(list: bool, lb: Bytes, more: Bytes)
    requires 1 <= |lb| <= 8 && lb[0] != 0 && FromBE(lb) >= 56
    ensures DecodeHeader([(if list then 0xf7 else 0xb7) + |lb|] + (lb + more))
            == Bounded(Header(list, FromBE(lb)), more)
  {
    hide FromBE;
    var buf := [(if list then 0xf7 else 0xb7) + |lb|] + (lb + more);
    var rest := buf[1..];
    assert rest == lb + more;
    assert rest[..|lb|] == lb && rest[|lb|..] == more && rest[0] == lb[0];
  }

  lemma SmallFromBE(s: Bytes)
    requires |s| <= 8
    ensures FromBE(s) < LENGTH_LIMIT
  {
    MachineWidths();
    Pow256Monotone(|s|, 8);
  }

  lemma Reassociate(a: Bytes, b: Bytes, c: Bytes)
    ensures (a + b) + c == a + (b + c)
  {
  }

  lemma JoinShort(list: bool, b: byte, rest: Bytes, n: nat)
    requires n <= 55 && n <= |rest| && b == (if list then 0xc0 else 0x80) + n
    requires !list && n == 1 ==> rest[0] >= 0x80
    ensures [b] + rest == Encoded(list, rest[..n]) + rest[n..]
  {
    assert rest == rest[..n] + rest[n..];
    assert Encoded(list, rest[..n]) == [b] + rest[..n];
  }

  lemma JoinLong(list: bool, b: byte, lb: Bytes, rest: Bytes, n: nat)
    requires 55 < n < LENGTH_LIMIT && n <= |rest| && lb == MinBE(n) && b == (if list then 0xf7 else 0xb7) + |lb|
    ensures [b] + (lb + rest) == Encoded(list, rest[..n]) + rest[n..]
  {
    hide MinBE;
    var x, y, e := rest[..n], rest[n..], [b] + lb;
    assert LenPrefix(n, if list then LIST_BASE else STRING_BASE) == e;
    assert Encoded(list, x) == e + x;
    assert x + y == rest;
    Reassociate([b], lb, rest);
    Reassociate(e, x, y);
  }

  /** Everything the header decoder accepts is an encoding of the payload it found. */
  lemma DecodedIsEncoded(buf: Bytes)
    requires DecodeHeader(buf).Ok?
    ensures var (h, rest) := DecodeHeader(buf).value;
            && h.payloadLength < LENGTH_LIMIT
            && buf == Encoded(h.list, rest[..h.payloadLength]) + rest[h.payloadLength..]
  {
    var b := buf[0];
    if b < 0x80 {
      assert buf[..1] == [b] && buf == buf[..1] + buf[1..];
    } else if 0xb7 < b <= 0xbf || b >= 0xf8 {
      DecodedLong(buf);
    } else {
      hide FromBE, Encoded;
      var (h, rest) := DecodeHeader(buf).value;
      assert buf == [b] + rest;
      JoinShort(h.list, b, rest, h.payloadLength);
    }
  }

  lemma DecodedLong(buf: Bytes)
    requires DecodeHeader(buf).Ok? && (0xb7 < buf[0] <= 0xbf || buf[0] >= 0xf8)
    ensures var (h, rest) := DecodeHeader(buf).value;
            && h.payloadLength < LENGTH_LIMIT
            && buf == Encoded(h.list, rest[..h.payloadLength]) + rest[h.payloadLength..]
  {
    hide FromBE, MinBE, Encoded;
    var (h, rest) := DecodeHeader(buf).value;
    var b, tail := buf[0], buf[1..];
    var k := b - (if b >= 0xf8 then 0xf7 else 0xb7);
    var lb := tail[..k];
    SmallFromBE(lb);
    MinBEOfFromBE(lb);
    assert buf == [b] + tail && tail == lb + rest;
    JoinLong(h.list, b, lb, rest, h.payloadLength);
  }

  // ------------------------------------------------------------ strings

  /** A byte string that fills the whole item. */
  function DecodeString(item: Bytes): (r: Result<Bytes, Option<RlpError>>) {
    var h := DecodeHeader(item);
    if h.Err? then Err(Some(h.error))
    else
      var (header, rest) := h.value;
      if header.list then Err(Some(UnexpectedList))
      else if |rest| > header.payloadLength then Err(None)
      else Ok(rest)
  }

  lemma DecodeStringExactly(item: Bytes, b: Bytes)
    ensures DecodeString(item) == Ok(b) <==> |b| < LENGTH_LIMIT && item == EncString(b)
  {
    hide DecodeHeader;
    if DecodeString(item) == Ok(b) {
      DecodedIsEncoded(item);
      var (h, rest) := DecodeHeader(item).value;
      assert rest[..h.payloadLength] == rest && rest[h.payloadLength..] == [];
    }
    if |b| < LENGTH_LIMIT && item == EncString(b) {
      DecodeEncoded(false, b, []);
      assert item == Encoded(false, b) + [] && b + [] == b;
    }
  }

  // ------------------------------------------------------------ lists

  function Concat(items: seq<Bytes>): Bytes {
    if items == [] then [] else items[0] + Concat(items[1..])
  }

  /** One item, header and payload, with nothing after it. */
  predicate Framed(item: Bytes) {
    var h := DecodeHeader(item);
    h.Ok? && |h.value.1| == h.value.0.payloadLength
  }

  ghost predicate AllFramed(items: seq<Bytes>) {
    forall i :: 0 <= i < |items| ==> Framed(items[i])
  }

  lemma EncodedIsFramed(list: bool, payload: Bytes)
    requires |payload| < LENGTH_LIMIT
    ensures Framed(Encoded(list, payload))
  {
    hide DecodeHeader;
    DecodeEncoded(list, payload, []);
    assert Encoded(list, payload) + [] == Encoded(list, payload) && payload + [] == payload;
  }

  lemma StringIsFramed(b: Bytes)
    requires |b| < LENGTH_LIMIT
    ensures Framed(EncString(b))
  {
    EncodedIsFramed(false, b);
  }

  lemma ListIsFramed(payload: Bytes)
    requires |payload| < LENGTH_LIMIT
    ensures Framed(EncList(payload))
  {
    EncodedIsFramed(true, payload);
  }

  /** A framed item is read the same way when more bytes follow. */
  lemma FramedPrefix(item: Bytes, tail: Bytes)
    requires Framed(item)
    ensures DecodeHeader(item + tail) == Ok((DecodeHeader(item).value.0, DecodeHeader(item).value.1 + tail))
  {
    hide DecodeHeader;
    var (h, rest) := DecodeHeader(item).value;
    DecodedIsEncoded(item);
    assert rest[..h.payloadLength] == rest && rest[h.payloadLength..] == [];
    DecodeEncoded(h.list, rest, tail);
    assert item == Encoded(h.list, rest);
  }

  /** The first item of a payload, header included. */
  function FirstItem(payload: Bytes): (item: Bytes)
    requires DecodeHeader(payload).Ok?
    ensures 0 < |item| <= |payload| && item == payload[..|item|]
  {
    var (h, rest) := DecodeHeader(payload).value;
    payload[..|payload| - (|rest| - h.payloadLength)]
  }

  lemma FirstItemFramed(payload: Bytes)
    requires DecodeHeader(payload).Ok?
    ensures Framed(FirstItem(payload))
  {
    hide DecodeHeader;
    var (h, rest) := DecodeHeader(payload).value;
    DecodedIsEncoded(payload);
    var e := Encoded(h.list, rest[..h.payloadLength]);
    assert payload == e + rest[h.payloadLength..];
    assert FirstItem(payload) == e;
    EncodedIsFramed(h.list, rest[..h.payloadLength]);
  }

  /** The item slices of a list payload. */
  function SplitItems(payload: Bytes): (r: Result<seq<Bytes>, RlpError>)
    decreases |payload|
  {
    if payload == [] then Ok([])
    else
      var h := DecodeHeader(payload);
      if h.Err? then Err(h.error)
      else
        var first := FirstItem(payload);
        var more :- SplitItems(payload[|first|..]);
        Ok([first] + more)
  }

  lemma {:induction false} SplitConcat(items: seq<Bytes>)
    requires AllFramed(items)
    ensures SplitItems(Concat(items)) == Ok(items)
  {
    hide DecodeHeader;
    if items != [] {
      var first, tail := items[0], Concat(items[1..]);
      assert Framed(first);
      SplitConcat(items[1..]);
      FramedPrefix(first, tail);
      var (h, rest) := DecodeHeader(first + tail).value;
      assert FirstItem(first + tail) == first;
      assert (first + tail)[|first|..] == tail;
      assert Concat(items) == first + tail;
      assert items == [first] + items[1..];
    }
  }

  lemma {:induction false} SplitSound(payload: Bytes)
    requires SplitItems(payload).Ok?
    ensures AllFramed(SplitItems(payload).value) && Concat(SplitItems(payload).value) == payload
    decreases |payload|
  {
    hide DecodeHeader, Framed;
    if payload != [] {
      var first := FirstItem(payload);
      var tail := payload[|first|..];
      FirstItemFramed(payload);
      SplitSound(tail);
      var items, more := SplitItems(payload).value, SplitItems(tail).value;
      assert items == [first] + more;
      assert items[1..] == more;
      assert first + tail == payload;
    }
  }

  /** A list that fills the whole item, cut into its items (`Header::decode_raw`, then the trailing check). */
  function DecodeItems(item: Bytes): (r: Result<seq<Bytes>, Option<RlpError>>) {
    var h := DecodeHeader(item);
    if h.Err? then Err(Some(h.error))
    else
      var (header, rest) := h.value;
      if !header.list then Err(None)
      else
        var items := SplitItems(rest[..header.payloadLength]);
        if items.Err? then Err(Some(items.error))
        else if |rest| > header.payloadLength then Err(None)
        else Ok(items.value)
  }

  /** The list decoder accepts exactly the encodings of lists of framed items. */
  lemma DecodeItemsExactly(item: Bytes, items: seq<Bytes>)
    ensures DecodeItems(item) == Ok(items)
            <==> |Concat(items)| < LENGTH_LIMIT && AllFramed(items) && item == EncList(Concat(items))
  {
    hide DecodeHeader, Framed;
    if DecodeItems(item) == Ok(items) {
      var (h, rest) := DecodeHeader(item).value;
      DecodedIsEncoded(item);
      SplitSound(rest[..h.payloadLength]);
      assert rest[h.payloadLength..] == [];
    }
    if |Concat(items)| < LENGTH_LIMIT && AllFramed(items) && item == EncList(Concat(items)) {
      var payload := Concat(items);
      DecodeEncoded(true, payload, []);
      assert item == Encoded(true, payload) + [] && payload + [] == payload;
      SplitConcat(items);
      assert payload[..|payload|] == payload;
    }
  }
}
