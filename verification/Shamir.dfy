/**
 Shamir sharing of byte strings (crates/qfc-sss/src/shamir.rs): length prefix,
 31-byte chunks, one polynomial per chunk, per-chunk shares regrouped by share.

 The field is the integers modulo a prime. The group order of secp256k1 enters only
 through `ScalarField`: it is prime and lies between 256^31 and 256^32.
 */
module Shamir {
  import opened Bytes
  import opened Outcomes
  import opened PrimeField

  const CHUNK_DATA_BYTES := 31
  const PER_CHUNK_SHARE_BYTES := 33
  const HEADER_BYTES := 4

  datatype Params = Params(threshold: byte, total: byte) {
    predicate Acceptable() {
      2 <= threshold <= total
    }
  }

  datatype Share = Share(index: byte, params: Params, blob: Bytes)

  datatype ShareError =
    | InvalidParameters(params: Params)
    | InvalidSecret
    | Vsss
    | NotEnoughShares(threshold: byte, provided: nat)
    | InconsistentShares(reason: string)

  /** A prime field whose order lies where the group order of secp256k1 does. */
  ghost predicate ScalarField(F: Field) {
    IsField(F) && Pow256(31) <= F.p <= Pow256(32)
  }

  /** The coefficients drawn from the random source: chunk, then degree minus one. */
  type Draws = (nat, nat) -> int

  // ------------------------------------------------------------ the byte layer

  /** How many zero bytes lead to the next multiple of the chunk size. */
  function PadCount(n: nat): (k: nat)
    ensures (n + k) % CHUNK_DATA_BYTES == 0 && k < CHUNK_DATA_BYTES
  {
    (CHUNK_DATA_BYTES - n % CHUNK_DATA_BYTES) % CHUNK_DATA_BYTES
  }

  lemma PadStep(n: nat)
    ensures n % CHUNK_DATA_BYTES == 0 ==> PadCount(n) == 0
    ensures n % CHUNK_DATA_BYTES != 0 ==> PadCount(n) > 0 && PadCount(n + 1) == PadCount(n) - 1
  {
  }

  function Zeros(k: nat): (z: Bytes)
    ensures |z| == k
  {
    seq(k, _ => 0)
  }

  function Padded(s: Bytes): (r: Bytes)
    ensures |r| % CHUNK_DATA_BYTES == 0
    ensures s <= r
  {
    s + Zeros(PadCount(|s|))
  }

  lemma PadNone(s: Bytes)
    requires |s| % CHUNK_DATA_BYTES == 0
    ensures Padded(s) == s
  {
    PadStep(|s|);
  }

  lemma PadOne(s: Bytes)
    requires |s| % CHUNK_DATA_BYTES != 0
    ensures Padded(s + [0]) == Padded(s)
  {
    hide PadCount;
    var k := PadCount(|s|);
    PadStep(|s|);
    assert Zeros(k) == [0] + Zeros(k - 1);
    assert (s + [0]) + Zeros(k - 1) == s + ([0] + Zeros(k - 1));
  }

  function Header(secret: Bytes): (h: Bytes)
    requires |secret| < 0x1_0000_0000
    ensures |h| == HEADER_BYTES && FromBE(h) == |secret|
  {
    MachineWidths();
    ToBE(|secret|, HEADER_BYTES)
  }

  function Prefixed(secret: Bytes): (r: Bytes)
    requires |secret| < 0x1_0000_0000
    ensures |r| % CHUNK_DATA_BYTES == 0
    ensures Header(secret) + secret <= r
  {
    Padded(Header(secret) + secret)
  }

  function ChunkCount(prefixed: Bytes): nat {
    |prefixed| / CHUNK_DATA_BYTES
  }

  function Chunk(prefixed: Bytes, c: nat): (chunk: Bytes)
    requires c < ChunkCount(prefixed)
    ensures |chunk| == CHUNK_DATA_BYTES
  {
    prefixed[c * CHUNK_DATA_BYTES..c * CHUNK_DATA_BYTES + CHUNK_DATA_BYTES]
  }

  /** A chunk behind a zero high byte always denotes a scalar below the order. */
  lemma ChunkIsScalar(F: Field, chunk: Bytes)
    requires ScalarField(F) && |chunk| == CHUNK_DATA_BYTES
    ensures FromBE([0] + chunk) == FromBE(chunk) < F.p
  {
    FromBELeadingZero([0] + chunk);
    assert ([0] + chunk)[1..] == chunk;
  }

  /** Writing the scalar back and dropping the high byte restores the chunk. */
  lemma ScalarIsChunk(chunk: Bytes)
    requires |chunk| == CHUNK_DATA_BYTES
    ensures FromBE(chunk) < Pow256(32)
    ensures ToBE(FromBE(chunk), 32)[1..] == chunk
  {
    FromBELeadingZero([0] + chunk);
    assert ([0] + chunk)[1..] == chunk;
    ToBEOfFromBE([0] + chunk);
  }

  // ------------------------------------------------------------ one chunk

  /** The value of a polynomial in the field. */
  function FieldEval(F: Field, f: Poly, x: int): (v: nat)
    requires F.p > 0
    ensures v < F.p
  {
    Eval(f, x) % F.p
  }

  /** One 33-byte chunk share: the identifier, then the value of the polynomial there. */
  function ChunkShare(F: Field, f: Poly, id: byte): (s: Bytes)
    requires 0 < F.p <= Pow256(32)
    ensures |s| == PER_CHUNK_SHARE_BYTES
    ensures s[0] == id && FromBE(s[1..]) == FieldEval(F, f, id)
  {
    var v := ToBE(FieldEval(F, f, id), 32);
    assert ([id] + v)[1..] == v;
    [id] + v
  }

  function VsssSplit(F: Field, f: Poly, total: byte): (r: seq<Bytes>)
    requires 0 < F.p <= Pow256(32)
    ensures |r| == total
  {
    seq(total, i requires 0 <= i < total => ChunkShare(F, f, i + 1))
  }

  ghost predicate AllChunkShares(shares: seq<Bytes>) {
    forall i :: 0 <= i < |shares| ==> |shares[i]| == PER_CHUNK_SHARE_BYTES
  }

  function Ids(shares: seq<Bytes>): (xs: seq<int>)
    requires AllChunkShares(shares)
    ensures |xs| == |shares|
    ensures forall i :: 0 <= i < |xs| ==> xs[i] == shares[i][0] && 0 <= xs[i] < 256
  {
    seq(|shares|, i requires 0 <= i < |shares| => shares[i][0])
  }

  function Values(shares: seq<Bytes>): (ys: seq<int>)
    requires AllChunkShares(shares)
    ensures |ys| == |shares|
    ensures forall i :: 0 <= i < |ys| ==> ys[i] == FromBE(shares[i][1..])
  {
    seq(|shares|, i requires 0 <= i < |shares| => FromBE(shares[i][1..]))
  }

  predicate Distinct<T(==)>(xs: seq<T>) {
    forall i, j :: 0 <= i < j < |xs| ==> xs[i] != xs[j]
  }

  lemma SmallDistinct(F: Field, xs: seq<int>)
    requires ScalarField(F) && Distinct(xs)
    requires forall i :: 0 <= i < |xs| ==> 0 <= xs[i] < 256
    ensures DistinctMod(F.p, xs)
  {
    assert Pow256(1) == 256 * Pow256(0);
    Pow256Monotone(1, 31);
    forall i, j | 0 <= i < j < |xs| ensures !Cong(F.p, xs[i], xs[j]) {
      hide Cong;
      if Cong(F.p, xs[i], xs[j]) { CongSmallEqual(F.p, xs[i], xs[j]); }
    }
  }

  /** Interpolation at zero, refusing what cannot be interpolated. */
  function VsssCombine(F: Field, shares: seq<Bytes>): (r: Outcome<nat, ShareError>)
    requires F.p > 0 && AllChunkShares(shares)
    ensures r.Ok? ==> r.value < F.p
    ensures !r.Panic?
  {
    var xs, ys := Ids(shares), Values(shares);
    if |shares| < 2 || 0 in xs || !Distinct(xs) || exists i :: 0 <= i < |ys| && ys[i] >= F.p then Err(Vsss)
    else Ok(SumAtZero(F, xs, ys, |xs|) % F.p)
  }

  /** Threshold many chunk shares with distinct identifiers recover the scalar. */
  lemma CombineChunk(F: Field, f: Poly, ids: seq<byte>, shares: seq<Bytes>)
    requires ScalarField(F)
    requires 2 <= |f| <= |ids| == |shares|
    requires 0 <= f[0] < F.p
    requires Distinct(ids) && 0 !in ids
    requires forall i :: 0 <= i < |ids| ==> shares[i] == ChunkShare(F, f, ids[i])
    ensures AllChunkShares(shares)
    ensures VsssCombine(F, shares) == Ok(f[0])
  {
    hide Cong, SumAtZero, DistinctMod, ChunkShare, FromBE, Eval, Pow256, IsField;
    var xs, ys := Ids(shares), Values(shares);
    forall i | 0 <= i < |ids|
      ensures xs[i] == ids[i] && ys[i] < F.p && Cong(F.p, Eval(f, xs[i]), ys[i])
    {
      assert shares[i] == ChunkShare(F, f, ids[i]);
      CongMod(F.p, Eval(f, ids[i]));
    }
    SmallDistinct(F, xs);
    InterpolationAtZero(F, f, xs, ys);
    CongToEqual(F, SumAtZero(F, xs, ys, |xs|), f[0]);
  }

  lemma CongToEqual(F: Field, a: int, b: int)
    requires F.p > 0 && Cong(F.p, a, b) && 0 <= b < F.p
    ensures a % F.p == b
  {
    hide Cong;
    CongMod(F.p, a);
    CongTrans(F.p, a % F.p, a, b);
    CongSmallEqual(F.p, a % F.p, b);
  }

  // ------------------------------------------------------------ splitting

  function SplitError(secret: Bytes, params: Params): Option<ShareError> {
    if !params.Acceptable() then Some(InvalidParameters(params))
    else if secret == [] || |secret| >= 0x1_0000_0000 then Some(InvalidSecret)
    else None
  }

  /** One split: the field, the parameters, the secret, and the coefficients drawn. */
  datatype Deal = Deal(F: Field, params: Params, secret: Bytes, draws: Draws) {

    ghost predicate Valid() {
      ScalarField(F) && SplitError(secret, params).None?
    }

    function Buffer(): (b: Bytes)
      requires Valid()
    {
      Prefixed(secret)
    }

    function Chunks(): nat
      requires Valid()
    {
      ChunkCount(Buffer())
    }

    /** The polynomial that shares chunk `c`. */
    function PolyAt(c: nat): (f: Poly)
      requires Valid() && c < Chunks()
      ensures |f| == params.threshold && f[0] == FromBE(Chunk(Buffer(), c))
    {
      [FromBE(Chunk(Buffer(), c))] + seq(params.threshold - 1, k requires 0 <= k => draws(c, k))
    }

    /** The first n chunk shares held under identifier `id`, end to end. */
    function Body(id: byte, n: nat): (b: Bytes)
      requires Valid() && n <= Chunks()
      ensures |b| == n * PER_CHUNK_SHARE_BYTES
    {
      if n == 0 then [] else Body(id, n - 1) + ChunkShare(F, PolyAt(n - 1), id)
    }

    /** The share handed out under identifier `id`. */
    function ShareOf(id: byte): (s: Share)
      requires Valid()
    {
      Share(id, params, Header(secret) + Body(id, Chunks()))
    }

    lemma BodyUnfold(id: byte, n: nat)
      requires Valid() && n <= Chunks()
      ensures Body(id, 0) == []
      ensures n > 0 ==> Body(id, n) == Body(id, n - 1) + ChunkShare(F, PolyAt(n - 1), id)
    {
    }

    lemma {:induction false} BodySlice(id: byte, n: nat, c: nat)
      requires Valid() && c < n <= Chunks()
      ensures Body(id, n)[c * 33..c * 33 + 33] == ChunkShare(F, PolyAt(c), id)
    {
      hide Chunks, PolyAt, ChunkShare, Body, SplitError, Divides, Pow256;
      BodyUnfold(id, n);
      if c < n - 1 {
        BodySlice(id, n - 1, c);
        SliceOfLeft(Body(id, n - 1), ChunkShare(F, PolyAt(n - 1), id), c * 33, c * 33 + 33);
      } else {
        SliceOfLast(Body(id, n - 1), ChunkShare(F, PolyAt(n - 1), id), c * 33, c * 33 + 33);
      }
    }

    /** What the combiner slices out of the blob of share `id`. */
    lemma BlobSlice(id: byte, c: nat)
      requires Valid() && c < Chunks()
      ensures |ShareOf(id).blob| == 4 + Chunks() * 33
      ensures ShareOf(id).blob[4 + c * 33..4 + c * 33 + 33] == ChunkShare(F, PolyAt(c), id)
    {
      hide Chunks, PolyAt, ChunkShare, Body, Divides, Pow256;
      BodySlice(id, Chunks(), c);
      SliceOfRight(Header(secret), Body(id, Chunks()), c * 33, c * 33 + 33);
    }
  }

  method SplitSecret(F: Field, secret: Bytes, params: Params, draws: Draws) returns (r: Outcome<seq<Share>, ShareError>)
    requires ScalarField(F)
    ensures SplitError(secret, params).Some? ==> r == Err(SplitError(secret, params).value)
    ensures SplitError(secret, params).None? ==>
              && r.Ok? && |r.value| == params.total
              && forall i :: 0 <= i < params.total ==> r.value[i] == Deal(F, params, secret, draws).ShareOf(i + 1)
  {
    if params.threshold < 2 || params.threshold > params.total {
      return Err(InvalidParameters(params));
    }
    if secret == [] || |secret| >= 0x1_0000_0000 {
      return Err(InvalidSecret);
    }
    ghost var deal := Deal(F, params, secret, draws);
    var prefixed := PrefixAndPad(secret);
    var perChunk := SplitChunks(deal, F, params, draws, prefixed);
    var output := Regroup(deal, params, secret, perChunk);
    return Ok(output);
  }

  /** Step 2 of the split: every chunk into `total` chunk shares. */
  method SplitChunks(ghost deal: Deal, F: Field, params: Params, draws: Draws, prefixed: Bytes)
    returns (perChunk: seq<seq<Bytes>>)
    requires deal.Valid() && deal.F == F && deal.params == params && deal.draws == draws && deal.Buffer() == prefixed
    ensures |perChunk| == deal.Chunks()
    ensures forall c :: 0 <= c < |perChunk| ==> perChunk[c] == VsssSplit(F, deal.PolyAt(c), params.total)
  {
    hide VsssSplit, FromBE, Pow256, IsField, Deal.Buffer;
    var chunkCount := |prefixed| / CHUNK_DATA_BYTES;
    perChunk := [];
    for c := 0 to chunkCount
      invariant |perChunk| == c
      invariant forall k :: 0 <= k < c ==> perChunk[k] == VsssSplit(F, deal.PolyAt(k), params.total)
    {
      var start := c * CHUNK_DATA_BYTES;
      var chunk := prefixed[start..start + CHUNK_DATA_BYTES];
      ChunkIsScalar(F, chunk);
      var scalar := FromBE([0] + chunk);
      var f := [scalar] + seq(params.threshold - 1, k requires 0 <= k => draws(c, k));
      assert f == deal.PolyAt(c);
      perChunk := perChunk + [VsssSplit(F, f, params.total)];
    }
  }

  /** Step 3 of the split: from share lists per chunk to chunk lists per share. */
  method Regroup(ghost deal: Deal, params: Params, secret: Bytes, perChunk: seq<seq<Bytes>>)
    returns (output: seq<Share>)
    requires deal.Valid() && deal.params == params && deal.secret == secret
    requires |perChunk| == deal.Chunks()
    requires forall c :: 0 <= c < |perChunk| ==> perChunk[c] == VsssSplit(deal.F, deal.PolyAt(c), params.total)
    ensures |output| == params.total
    ensures forall i :: 0 <= i < |output| ==> output[i] == deal.ShareOf(i + 1)
  {
    hide Header, Deal.Body, Deal.PolyAt, Deal.Chunks, ChunkShare, IsField, Pow256;
    output := [];
    for shareIdx := 0 to params.total
      invariant |output| == shareIdx
      invariant forall i :: 0 <= i < shareIdx ==> output[i] == deal.ShareOf(i + 1)
    {
      deal.BodyUnfold(shareIdx + 1, 0);
      var combined := Header(secret);
      for c := 0 to |perChunk|
        invariant combined == Header(secret) + deal.Body(shareIdx + 1, c)
      {
        deal.BodyUnfold(shareIdx + 1, c + 1);
        assert perChunk[c][shareIdx] == ChunkShare(deal.F, deal.PolyAt(c), shareIdx + 1);
        combined := combined + perChunk[c][shareIdx];
      }
      output := output + [Share(shareIdx + 1, params, combined)];
    }
  }

  method PrefixAndPad(secret: Bytes) returns (prefixed: Bytes)
    requires |secret| < 0x1_0000_0000
    ensures prefixed == Prefixed(secret)
  {
    hide Header, PadCount, Padded;
    prefixed := Header(secret) + secret;
    while |prefixed| % CHUNK_DATA_BYTES != 0
      invariant Padded(prefixed) == Prefixed(secret)
      decreases PadCount(|prefixed|)
    {
      PadOne(prefixed);
      PadStep(|prefixed|);
      prefixed := prefixed + [0];
    }
    PadNone(prefixed);
  }

  // ------------------------------------------------------------ combining

  predicate SameParams(shares: seq<Share>) {
    forall i :: 0 <= i < |shares| ==> shares[i].params == shares[0].params
  }

  predicate SameBlobLength(shares: seq<Share>) {
    forall i :: 0 <= i < |shares| ==> |shares[i].blob| == |shares[0].blob|
  }

  function Indices(shares: seq<Share>): (r: seq<byte>)
    ensures |r| == |shares| && forall i :: 0 <= i < |r| ==> r[i] == shares[i].index
  {
    seq(|shares|, i requires 0 <= i < |shares| => shares[i].index)
  }

  /** The first check that fails on a list of shares, in the order of the source. */
  function ShapeError(shares: seq<Share>): Option<ShareError> {
    if shares == [] then Some(NotEnoughShares(1, 0))
    else if |shares| < shares[0].params.threshold then Some(NotEnoughShares(shares[0].params.threshold, |shares|))
    else if !SameParams(shares) then Some(InconsistentShares("parameters mismatch"))
    else if !Distinct(Indices(shares)) then Some(InconsistentShares("duplicate share indices"))
    else if |shares[0].blob| < HEADER_BYTES then Some(InconsistentShares("share blob too short"))
    else if (|shares[0].blob| - HEADER_BYTES) % PER_CHUNK_SHARE_BYTES != 0 then
      Some(InconsistentShares("share blob size invariant"))
    else if !SameBlobLength(shares) then Some(InconsistentShares("share blob length mismatch"))
    else None
  }

  function BlobChunks(shares: seq<Share>): (n: nat)
    requires ShapeError(shares).None?
    ensures |shares[0].blob| == HEADER_BYTES + n * PER_CHUNK_SHARE_BYTES
  {
    (|shares[0].blob| - HEADER_BYTES) / PER_CHUNK_SHARE_BYTES
  }

  /** The chunk shares at position `c` of every blob. */
  function Column(shares: seq<Share>, c: nat): (col: seq<Bytes>)
    requires ShapeError(shares).None? && c < BlobChunks(shares)
    ensures |col| == |shares| && AllChunkShares(col)
  {
    seq(|shares|, i requires 0 <= i < |shares| => shares[i].blob[4 + c * 33..4 + c * 33 + 33])
  }

  /** The first n recovered chunks, or the first interpolation failure. */
  function Recovered(F: Field, shares: seq<Share>, n: nat): (r: Outcome<Bytes, ShareError>)
    requires 0 < F.p <= Pow256(32) && ShapeError(shares).None? && n <= BlobChunks(shares)
    ensures r.Ok? ==> |r.value| == n * CHUNK_DATA_BYTES
    ensures !r.Panic?
  {
    if n == 0 then Ok([])
    else
      var before := Recovered(F, shares, n - 1);
      if !before.Ok? then before
      else
        var scalar := VsssCombine(F, Column(shares, n - 1));
        if !scalar.Ok? then Err(scalar.error)
        else Ok(before.value + ToBE(scalar.value, 32)[1..])
  }

  lemma {:induction false} RecoveryFailureSticks(F: Field, shares: seq<Share>, m: nat, n: nat)
    requires 0 < F.p <= Pow256(32) && ShapeError(shares).None? && m <= n <= BlobChunks(shares)
    requires Recovered(F, shares, m).Err?
    ensures Recovered(F, shares, n) == Recovered(F, shares, m)
    decreases n
  {
    hide ShapeError, BlobChunks, VsssCombine, Column, ToBE, Pow256;
    if m < n {
      RecoveryFailureSticks(F, shares, m, n - 1);
    }
  }

  /** Reads the secret out of the recovered length-prefixed buffer. */
  function Unprefixed(buffer: Bytes, secretLen: nat): (r: Outcome<Bytes, ShareError>) {
    if |buffer| < secretLen then Err(InconsistentShares("recovered shorter than declared"))
    else if |buffer| < HEADER_BYTES then Panic
    else if FromBE(buffer[..HEADER_BYTES]) != secretLen
        then Err(InconsistentShares("header mismatch on reconstruction"))
    else if HEADER_BYTES + secretLen > |buffer| then
      Err(InconsistentShares("recovered buffer too small for declared length"))
    else Ok(buffer[HEADER_BYTES..HEADER_BYTES + secretLen])
  }

  function Combined(F: Field, shares: seq<Share>): (r: Outcome<Bytes, ShareError>)
    requires 0 < F.p <= Pow256(32)
  {
    var e := ShapeError(shares);
    if e.Some? then Err(e.value)
    else
      var buffer := Recovered(F, shares, BlobChunks(shares));
      if !buffer.Ok? then buffer
      else Unprefixed(buffer.value, FromBE(shares[0].blob[..HEADER_BYTES]))
  }

  /**
   A secret comes only out of at least threshold many shares of one deal's parameters,
   under different indices, with blobs of one length made of whole chunks.
   */
  lemma SecretNeedsShares(F: Field, shares: seq<Share>)
    requires 0 < F.p <= Pow256(32) && !Combined(F, shares).Err?
    ensures 0 < |shares| && shares[0].params.threshold <= |shares|
    ensures forall i, j :: 0 <= i < j < |shares| ==>
                             && shares[i].params == shares[j].params && shares[i].index != shares[j].index
                             && |shares[i].blob| == |shares[j].blob|
    ensures |shares[0].blob| >= 4 && (|shares[0].blob| - 4) % 33 == 0
  {
    hide Recovered, Unprefixed, Pow256, FromBE;
    var indices := Indices(shares);
    assert forall i, j :: 0 <= i < j < |shares| ==> indices[i] != indices[j];
  }

  /**
   A secret is given out if and only if the shares are well shaped, every chunk is
   recovered, and the recovered bytes begin with the secret's length and the secret,
   the length being the one the first share declares.
   */
  lemma CombinedExactly(F: Field, shares: seq<Share>, secret: Bytes)
    requires 0 < F.p <= Pow256(32)
    ensures Combined(F, shares) == Ok(secret)
            <==> && ShapeError(shares).None? && DeclaredLength(shares) == |secret|
                 && var buffer := Recovered(F, shares, BlobChunks(shares));
                    buffer.Ok? && ToBE4(|secret|) + secret <= buffer.value
  {
    hide Recovered, ShapeError, FromBE, ToBE, Pow256, BlobChunks;
    if ShapeError(shares).None? && Recovered(F, shares, BlobChunks(shares)).Ok? {
      UnprefixedExactly(Recovered(F, shares, BlobChunks(shares)).value, DeclaredLength(shares), secret);
    }
  }

  function DeclaredLength(shares: seq<Share>): (n: nat)
    requires ShapeError(shares).None?
    ensures n == FromBE(shares[0].blob[..4]) && n < 0x1_0000_0000
  {
    MachineWidths();
    FromBE(shares[0].blob[..4])
  }

  lemma UnprefixedExactly(buffer: Bytes, declared: nat, secret: Bytes)
    requires declared < 0x1_0000_0000
    ensures Unprefixed(buffer, declared) == Ok(secret)
            <==> |secret| == declared && ToBE4(declared) + secret <= buffer
  {
    hide FromBE, ToBE4;
    if |buffer| >= 4 {
      if FromBE(buffer[..4]) == declared { FromBEInjective(buffer[..4], ToBE4(declared)); }
      if |secret| == declared && ToBE4(declared) + secret <= buffer {
        var front := ToBE4(declared) + secret;
        assert buffer[..4] == front[..4] == ToBE4(declared);
        assert buffer[4..4 + declared] == front[4..] == secret;
      }
      if |buffer| >= 4 + declared {
        assert buffer[..4 + declared] == buffer[..4] + buffer[4..4 + declared];
      }
    }
  }

  function Elements(xs: seq<byte>): set<byte> {
    set x | x in xs
  }

  /** Sorting and removing repeats shortens a list exactly when it had a repeat. */
  lemma {:induction false} DistinctCount(xs: seq<byte>)
    ensures |Elements(xs)| <= |xs|
    ensures |Elements(xs)| == |xs| <==> Distinct(xs)
  {
    if xs != [] {
      var last, rest := xs[|xs| - 1], xs[..|xs| - 1];
      DistinctCount(rest);
      assert xs == rest + [last];
      if last in rest {
        var i :| 0 <= i < |rest| && rest[i] == last;
        assert xs[i] == xs[|xs| - 1];
        assert Elements(xs) == Elements(rest);
      } else {
        assert Elements(xs) == Elements(rest) + {last};
      }
    }
  }

  predicate Ascending(xs: seq<byte>) {
    forall i, j :: 0 <= i < j < |xs| ==> xs[i] <= xs[j]
  }

  predicate StrictlyAscending(xs: seq<byte>) {
    forall i, j :: 0 <= i < j < |xs| ==> xs[i] < xs[j]
  }

  /** Insertion of one index into a sorted vector. */
  method Insert(xs: seq<byte>, x: byte) returns (ys: seq<byte>)
    requires Ascending(xs)
    ensures Ascending(ys) && Elements(ys) == Elements(xs) + {x} && |ys| == |xs| + 1
  {
    var at := 0;
    while at < |xs| && xs[at] <= x
      invariant at <= |xs| && forall i :: 0 <= i < at ==> xs[i] <= x
    {
      at := at + 1;
    }
    ys := xs[..at] + [x] + xs[at..];
    InsertedElements(xs, x, at);
  }

  lemma InsertedElements(xs: seq<byte>, x: byte, at: nat)
    requires at <= |xs|
    ensures Elements(xs[..at] + [x] + xs[at..]) == Elements(xs) + {x}
  {
    assert xs == xs[..at] + xs[at..];
  }

  /** `sort_unstable`. */
  method Sort(xs: seq<byte>) returns (ys: seq<byte>)
    ensures Ascending(ys) && Elements(ys) == Elements(xs) && |ys| == |xs|
  {
    ys := [];
    for i := 0 to |xs|
      invariant Ascending(ys) && Elements(ys) == Elements(xs[..i]) && |ys| == i
    {
      assert xs[..i + 1] == xs[..i] + [xs[i]];
      ys := Insert(ys, xs[i]);
    }
    assert xs[..|xs|] == xs;
  }

  lemma ElementsPush(xs: seq<byte>, x: byte)
    ensures Elements(xs + [x]) == Elements(xs) + {x}
  {
  }

  /** `dedup`: drops an entry equal to the last one kept. */
  method Dedup(xs: seq<byte>) returns (ys: seq<byte>)
    requires Ascending(xs)
    ensures StrictlyAscending(ys) && Elements(ys) == Elements(xs)
  {
    ys := [];
    for i := 0 to |xs|
      invariant StrictlyAscending(ys) && Elements(ys) == Elements(xs[..i])
      invariant ys != [] ==> i > 0 && ys[|ys| - 1] == xs[i - 1]
      invariant ys == [] ==> i == 0
    {
      assert xs[..i + 1] == xs[..i] + [xs[i]];
      ElementsPush(xs[..i], xs[i]);
      ElementsPush(ys, xs[i]);
      if ys == [] || ys[|ys| - 1] != xs[i] {
        assert ys != [] ==> xs[i - 1] <= xs[i];
        ys := ys + [xs[i]];
      }
    }
    assert xs[..|xs|] == xs;
  }

  /** The sorted vector without repeats is as long as the original exactly when there were none. */
  method SortAndDedup(xs: seq<byte>) returns (kept: seq<byte>)
    ensures StrictlyAscending(kept) && Elements(kept) == Elements(xs)
    ensures |kept| == |xs| <==> Distinct(xs)
  {
    var sorted := Sort(xs);
    kept := Dedup(sorted);
    DistinctCount(xs);
    DistinctCount(kept);
  }

  method CombineShares(F: Field, shares: seq<Share>) returns (r: Outcome<Bytes, ShareError>)
    requires 0 < F.p <= Pow256(32)
    ensures r == Combined(F, shares)
  {
    hide Recovered, FromBE, Pow256;
    var problem := CheckShape(shares);
    if problem.Some? {
      return Err(problem.value);
    }
    var secretLen := FromBE(shares[0].blob[..HEADER_BYTES]);
    var recovered := RecoverBuffer(F, shares);
    if !recovered.Ok? {
      return recovered;
    }
    var buffer := recovered.value;
    if |buffer| < secretLen {
      return Err(InconsistentShares("recovered shorter than declared"));
    }
    if |buffer| < HEADER_BYTES {
      return Panic;
    }
    if FromBE(buffer[..HEADER_BYTES]) != secretLen {
      return Err(InconsistentShares("header mismatch on reconstruction"));
    }
    var end := HEADER_BYTES + secretLen;
    if end > |buffer| {
      return Err(InconsistentShares("recovered buffer too small for declared length"));
    }
    return Ok(buffer[HEADER_BYTES..end]);
  }

  method CheckShape(shares: seq<Share>) returns (problem: Option<ShareError>)
    ensures problem == ShapeError(shares)
  {
    if shares == [] {
      return Some(NotEnoughShares(1, 0));
    }
    var first := shares[0];
    if |shares| < first.params.threshold {
      return Some(NotEnoughShares(first.params.threshold, |shares|));
    }
    if exists i :: 0 <= i < |shares| && shares[i].params != first.params {
      return Some(InconsistentShares("parameters mismatch"));
    }
    var indices := SortAndDedup(Indices(shares));
    if |indices| != |shares| {
      return Some(InconsistentShares("duplicate share indices"));
    }
    if |first.blob| < HEADER_BYTES {
      return Some(InconsistentShares("share blob too short"));
    }
    if (|first.blob| - HEADER_BYTES) % PER_CHUNK_SHARE_BYTES != 0 {
      return Some(InconsistentShares("share blob size invariant"));
    }
    for i := 0 to |shares|
      invariant forall j :: 0 <= j < i ==> |shares[j].blob| == |first.blob|
    {
      if |shares[i].blob| != |first.blob| {
        return Some(InconsistentShares("share blob length mismatch"));
      }
    }
    return None;
  }

  method RecoverBuffer(F: Field, shares: seq<Share>) returns (r: Outcome<Bytes, ShareError>)
    requires 0 < F.p <= Pow256(32) && ShapeError(shares).None?
    ensures r == Recovered(F, shares, BlobChunks(shares))
  {
    hide VsssCombine, ToBE, Pow256;
    var chunkCount := (|shares[0].blob| - HEADER_BYTES) / PER_CHUNK_SHARE_BYTES;
    var recovered: Bytes := [];
    for c := 0 to chunkCount
      invariant Recovered(F, shares, c) == Ok(recovered)
    {
      var offset := HEADER_BYTES + c * PER_CHUNK_SHARE_BYTES;
      var chunkShares: seq<Bytes> := [];
      for i := 0 to |shares|
        invariant |chunkShares| == i
        invariant forall j :: 0 <= j < i ==> chunkShares[j] == Column(shares, c)[j]
      {
        chunkShares := chunkShares + [shares[i].blob[offset..offset + PER_CHUNK_SHARE_BYTES]];
      }
      assert chunkShares == Column(shares, c);
      var scalar := VsssCombine(F, chunkShares);
      if scalar.Err? {
        RecoveryFailureSticks(F, shares, c + 1, chunkCount);
        return Err(scalar.error);
      }
      recovered := recovered + ToBE(scalar.value, 32)[1..];
    }
    return Ok(recovered);
  }

  lemma ZeroHeader(blob: Bytes)
    requires |blob| == 4
    ensures FromBE(blob) == 0 <==> blob == [0, 0, 0, 0]
  {
    var z: Bytes := [0, 0, 0, 0];
    assert FromBE([]) == 0;
    FromBELeadingZero([0]);
    FromBELeadingZero([0, 0]);
    FromBELeadingZero([0, 0, 0]);
    FromBELeadingZero(z);
    if FromBE(blob) == 0 { FromBEInjective(blob, z); }
  }

  /**
   Where the slice of the recovered header is out of range: exactly for
   well-shaped shares without a single chunk whose header declares length zero.
   */
  lemma PanicsExactly(F: Field, shares: seq<Share>)
    requires 0 < F.p <= Pow256(32)
    ensures Combined(F, shares).Panic? <==> ShapeError(shares).None? && shares[0].blob == [0, 0, 0, 0]
  {
    hide FromBE, Pow256, VsssCombine, Column;
    if ShapeError(shares).None? {
      var blob := shares[0].blob;
      if |blob| == 4 {
        assert blob[..4] == blob;
        ZeroHeader(blob);
      }
    }
  }

  /** One input on which the combiner panics. */
  lemma PanicExample(F: Field)
    requires 0 < F.p <= Pow256(32)
    ensures Combined(F, [Share(1, Params(2, 3), [0, 0, 0, 0]), Share(2, Params(2, 3), [0, 0, 0, 0])]) == Panic
  {
    hide Combined, Pow256;
    PanicsExactly(F, [Share(1, Params(2, 3), [0, 0, 0, 0]), Share(2, Params(2, 3), [0, 0, 0, 0])]);
  }

  // ------------------------------------------------------------ the round trip

  /** `chosen` are shares of one split, at least threshold many, no index twice. */
  ghost predicate ChosenFrom(chosen: seq<Share>, deal: Deal)
    requires deal.Valid()
  {
    && |chosen| >= deal.params.threshold
    && Distinct(Indices(chosen))
    && forall i :: 0 <= i < |chosen| ==>
         1 <= chosen[i].index <= deal.params.total && chosen[i] == deal.ShareOf(chosen[i].index)
  }

  lemma BufferChunks(deal: Deal)
    requires deal.Valid()
    ensures deal.Chunks() >= 1 && |deal.Buffer()| == deal.Chunks() * CHUNK_DATA_BYTES
  {
  }

  lemma ShareShape(deal: Deal, id: byte)
    requires deal.Valid()
    ensures deal.ShareOf(id).index == id && deal.ShareOf(id).params == deal.params
    ensures |deal.ShareOf(id).blob| == 4 + deal.Chunks() * 33 && deal.ShareOf(id).blob[..4] == Header(deal.secret)
  {
    hide Deal.Body, Deal.PolyAt, Deal.Chunks, Header, ScalarField;
  }

  lemma WholeChunks(n: nat)
    ensures (4 + n * 33 - 4) % 33 == 0 && (4 + n * 33 - 4) / 33 == n
  {
  }

  lemma ChosenShape(chosen: seq<Share>, deal: Deal)
    requires deal.Valid() && ChosenFrom(chosen, deal)
    ensures ShapeError(chosen).None?
    ensures chosen[0].blob[..4] == Header(deal.secret)
    ensures BlobChunks(chosen) == deal.Chunks()
  {
    hide Deal.ShareOf, Deal.Chunks, Header, ScalarField, Distinct, Deal.Buffer;
    BufferChunks(deal);
    WholeChunks(deal.Chunks());
    forall i | 0 <= i < |chosen|
      ensures chosen[i].params == deal.params && |chosen[i].blob| == 4 + deal.Chunks() * 33
      ensures chosen[i].blob[..4] == Header(deal.secret)
    {
      ShareShape(deal, chosen[i].index);
    }
  }

  lemma RecoverChunk(chosen: seq<Share>, deal: Deal, c: nat)
    requires deal.Valid() && ChosenFrom(chosen, deal)
    requires ShapeError(chosen).None? && c < BlobChunks(chosen) == deal.Chunks()
    ensures VsssCombine(deal.F, Column(chosen, c)) == Ok(FromBE(Chunk(deal.Buffer(), c)))
  {
    hide Deal.ShareOf, Deal.PolyAt, ChunkShare, VsssCombine, Column, BlobChunks, ShapeError, Distinct, Chunk, FromBE,
      IsField, Pow256, Padded;
    var f := deal.PolyAt(c);
    var col, ids := Column(chosen, c), Indices(chosen);
    forall i | 0 <= i < |chosen|
      ensures ids[i] != 0 && col[i] == ChunkShare(deal.F, f, ids[i])
    {
      ColumnEntry(chosen, deal, c, i);
    }
    ChunkIsScalar(deal.F, Chunk(deal.Buffer(), c));
    CombineChunk(deal.F, f, ids, col);
  }

  lemma ColumnEntry(chosen: seq<Share>, deal: Deal, c: nat, i: nat)
    requires deal.Valid() && ChosenFrom(chosen, deal) && i < |chosen|
    requires ShapeError(chosen).None? && c < BlobChunks(chosen) == deal.Chunks()
    ensures Column(chosen, c)[i] == ChunkShare(deal.F, deal.PolyAt(c), chosen[i].index)
  {
    hide Deal.ShareOf, Deal.Chunks, Deal.PolyAt, ChunkShare, Distinct, IsField, Pow256;
    assert chosen[i] == deal.ShareOf(chosen[i].index);
    deal.BlobSlice(chosen[i].index, c);
  }

  lemma {:induction false} RecoverAll(chosen: seq<Share>, deal: Deal, n: nat)
    requires deal.Valid() && ChosenFrom(chosen, deal)
    requires ShapeError(chosen).None? && n <= BlobChunks(chosen) == deal.Chunks()
    ensures n * 31 <= |deal.Buffer()|
    ensures Recovered(deal.F, chosen, n) == Ok(deal.Buffer()[..n * 31])
  {
    hide ChosenFrom, ShapeError, BlobChunks, Column, VsssCombine, ToBE, FromBE, Deal.Buffer, IsField, Pow256;
    BufferChunks(deal);
    if n > 0 {
      RecoverAll(chosen, deal, n - 1);
      RecoverChunk(chosen, deal, n - 1);
      var b := deal.Buffer();
      ScalarIsChunk(Chunk(b, n - 1));
      assert b[..(n - 1) * 31] + b[(n - 1) * 31..(n - 1) * 31 + 31] == b[..n * 31];
    }
  }

  /**
   Any threshold many distinct shares of a split, in any order, combine to
   exactly the secret, whatever coefficients were drawn.
   */
  lemma RoundTrip(chosen: seq<Share>, deal: Deal)
    requires deal.Valid() && ChosenFrom(chosen, deal)
    ensures Combined(deal.F, chosen) == Ok(deal.secret)
  {
    hide ChosenFrom, ShapeError, BlobChunks, Recovered, Deal.Chunks, IsField, Pow256, Header, Padded;
    ChosenShape(chosen, deal);
    BufferChunks(deal);
    RecoverAll(chosen, deal, BlobChunks(chosen));
    var b, h := deal.Buffer(), Header(deal.secret);
    assert b[..deal.Chunks() * 31] == b;
    assert b[..4] == (h + deal.secret)[..4] == h;
    assert b[4..4 + |deal.secret|] == (h + deal.secret)[4..4 + |deal.secret|] == deal.secret;
  }

  // ------------------------------------------------------------ secrecy

  function Reduced(f: Poly, p: int): (g: Poly)
    requires p > 0
    ensures |g| == |f| && forall i :: 0 <= i < |f| ==> g[i] == f[i] % p && 0 <= g[i] < p
  {
    seq(|f|, i requires 0 <= i < |f| => f[i] % p)
  }

  lemma {:induction false} EvalReduced(f: Poly, p: int, x: int)
    requires p > 0
    ensures Cong(p, Eval(Reduced(f, p), x), Eval(f, x))
  {
    hide Cong;
    if f == [] {
      CongRefl(p, 0);
    } else {
      EvalReduced(f[1..], p, x);
      assert Reduced(f, p)[1..] == Reduced(f[1..], p);
      CongMod(p, f[0]);
      CongScale(p, x, Eval(Reduced(f[1..], p), x), Eval(f[1..], x));
      CongAdd(p, f[0] % p, f[0], x * Eval(Reduced(f[1..], p), x), x * Eval(f[1..], x));
    }
  }

  /** A polynomial of `t` field coefficients through (0, s) and the points (ids[i], ys[i]). */
  ghost function Through(F: Field, t: nat, s: int, ids: seq<byte>, ys: seq<int>): (f: Poly)
    requires ScalarField(F) && |ids| == |ys| < t && Distinct(ids) && 0 !in ids
    ensures |f| == t && forall i :: 0 <= i < t ==> 0 <= f[i] < F.p
  {
    var xs := [0] + ids;
    SmallDistinct(F, xs);
    Reduced(Lagrange(F.p, xs, [s] + ys, |xs|) + seq(t - |xs|, _ => 0), F.p)
  }

  lemma ThroughPoint(F: Field, t: nat, s: int, ids: seq<byte>, ys: seq<int>, k: nat)
    requires ScalarField(F) && |ids| == |ys| < t && Distinct(ids) && 0 !in ids
    requires k <= |ids|
    ensures Cong(F.p, Eval(Through(F, t, s, ids, ys), ([0] + ids)[k]), ([s] + ys)[k])
  {
    hide Cong, DistinctMod, Lagrange, Eval, Reduced, Prime;
    var xs := [0] + ids;
    SmallDistinct(F, xs);
    var g := Lagrange(F.p, xs, [s] + ys, |xs|);
    var padded := g + seq(t - |xs|, _ => 0);
    LagrangeAtNode(F.p, xs, [s] + ys, |xs|, k);
    EvalPad(g, t - |xs|, xs[k]);
    EvalReduced(padded, F.p, xs[k]);
    CongTrans(F.p, Eval(Reduced(padded, F.p), xs[k]), Eval(g, xs[k]), ([s] + ys)[k]);
  }

  lemma ThroughZero(F: Field, t: nat, s: int, ids: seq<byte>, ys: seq<int>)
    requires ScalarField(F) && |ids| == |ys| < t && Distinct(ids) && 0 !in ids
    requires 0 <= s < F.p
    ensures Through(F, t, s, ids, ys)[0] == s
  {
    hide Cong, Through, ScalarField;
    var f := Through(F, t, s, ids, ys);
    ThroughPoint(F, t, s, ids, ys, 0);
    assert Eval(f, 0) == f[0] + 0 * Eval(f[1..], 0);
    CongSmallEqual(F.p, f[0], s);
  }

  /** The values of a polynomial at some identifiers. */
  ghost function ValuesAt(f: Poly, ids: seq<byte>): (ys: seq<int>)
    ensures |ys| == |ids| && forall i :: 0 <= i < |ids| ==> ys[i] == Eval(f, ids[i])
  {
    seq(|ids|, i requires 0 <= i < |ids| => Eval(f, ids[i]))
  }

  lemma SameValueSameShare(F: Field, f: Poly, g: Poly, id: byte)
    requires 0 < F.p <= Pow256(32) && Cong(F.p, Eval(g, id), Eval(f, id))
    ensures ChunkShare(F, g, id) == ChunkShare(F, f, id)
  {
    hide Cong, Eval, ToBE;
    var a, b := Eval(g, id), Eval(f, id);
    CongMod(F.p, b);
    CongTrans(F.p, a, b, b % F.p);
    CongToEqual(F, a, b % F.p);
  }

  /**
   One chunk: fewer than threshold shares fit every candidate value. The witness
   coefficients are field elements, as the random source would draw them.
   */
  lemma ChunkSecrecy(F: Field, f: Poly, ids: seq<byte>, s: int, g: Poly)
    requires ScalarField(F) && |ids| < |f| && Distinct(ids) && 0 !in ids
    requires 0 <= s < F.p
    requires g == Through(F, |f|, s, ids, ValuesAt(f, ids))
    ensures |g| == |f| && g[0] == s && forall k :: 0 <= k < |g| ==> 0 <= g[k] < F.p
    ensures forall i :: 0 <= i < |ids| ==> ChunkShare(F, g, ids[i]) == ChunkShare(F, f, ids[i])
  {
    hide Cong, Eval, ChunkShare, Through, IsField, Pow256;
    var ys := ValuesAt(f, ids);
    ThroughZero(F, |f|, s, ids, ys);
    forall i | 0 <= i < |ids|
      ensures ChunkShare(F, g, ids[i]) == ChunkShare(F, f, ids[i])
    {
      ThroughPoint(F, |f|, s, ids, ys, i + 1);
      assert ([0] + ids)[i + 1] == ids[i] && ([s] + ys)[i + 1] == ys[i];
      SameValueSameShare(F, f, g, ids[i]);
    }
  }

  /** Few shares: distinct identifiers, fewer than the threshold. */
  ghost predicate Few(deal: Deal, ids: seq<byte>) {
    Distinct(ids) && 0 !in ids && |ids| < deal.params.threshold
  }

  /** The polynomial that hides chunk `c` of `other` behind the shares of `deal` at `ids`. */
  ghost function MaskedPoly(deal: Deal, other: Bytes, ids: seq<byte>, c: nat): (g: Poly)
    requires deal.Valid() && |other| == |deal.secret| && Few(deal, ids)
    requires c < deal.Chunks() && c < ChunkCount(Prefixed(other))
    ensures |g| == deal.params.threshold && forall k :: 0 <= k < |g| ==> 0 <= g[k] < deal.F.p
  {
    Through(deal.F, deal.params.threshold, FromBE(Chunk(Prefixed(other), c)), ids, ValuesAt(deal.PolyAt(c), ids))
  }

  /** The split of `other` whose coefficients are read off those polynomials. */
  ghost function MaskedDeal(deal: Deal, other: Bytes, ids: seq<byte>): (d: Deal)
    requires deal.Valid() && |other| == |deal.secret| && Few(deal, ids)
    ensures d.Valid() && d.secret == other && d.params == deal.params && d.F == deal.F
    ensures d.Chunks() == deal.Chunks()
  {
    Deal(deal.F, deal.params, other, (c: nat, k: nat) =>
      if c < deal.Chunks() && c < ChunkCount(Prefixed(other)) && k + 1 < deal.params.threshold
      then MaskedPoly(deal, other, ids, c)[k + 1] else 0)
  }

  lemma MaskedChunk(deal: Deal, other: Bytes, ids: seq<byte>, c: nat, i: nat)
    requires deal.Valid() && |other| == |deal.secret| && Few(deal, ids) && i < |ids|
    requires c < deal.Chunks()
    ensures ChunkShare(deal.F, MaskedDeal(deal, other, ids).PolyAt(c), ids[i])
            == ChunkShare(deal.F, deal.PolyAt(c), ids[i])
  {
    hide IsField, ChunkShare, Through, FromBE, Pow256;
    var g, chunk := MaskedPoly(deal, other, ids, c), Chunk(Prefixed(other), c);
    ChunkIsScalar(deal.F, chunk);
    ChunkSecrecy(deal.F, deal.PolyAt(c), ids, FromBE(chunk), g);
    assert MaskedDeal(deal, other, ids).PolyAt(c) == g;
  }

  lemma {:induction false} MaskedBody(deal: Deal, other: Bytes, ids: seq<byte>, i: nat, n: nat)
    requires deal.Valid() && |other| == |deal.secret| && Few(deal, ids) && i < |ids|
    requires n <= deal.Chunks()
    ensures MaskedDeal(deal, other, ids).Body(ids[i], n) == deal.Body(ids[i], n)
  {
    hide *;
    MaskedDeal(deal, other, ids).BodyUnfold(ids[i], n);
    deal.BodyUnfold(ids[i], n);
    if n > 0 {
      MaskedBody(deal, other, ids, i, n - 1);
      MaskedChunk(deal, other, ids, n - 1, i);
    }
  }

  /** The coefficients a split of this deal uses are field elements. */
  ghost predicate FieldDraws(deal: Deal)
    requires deal.Valid()
  {
    forall c: nat, k: nat :: c < deal.Chunks() && k + 1 < deal.params.threshold ==> 0 <= deal.draws(c, k) < deal.F.p
  }

  ghost predicate SameShares(a: Deal, b: Deal, ids: seq<byte>)
    requires a.Valid() && b.Valid()
  {
    forall i :: 0 <= i < |ids| ==> a.ShareOf(ids[i]) == b.ShareOf(ids[i])
  }

  lemma MaskedInField(deal: Deal, other: Bytes, ids: seq<byte>)
    requires deal.Valid() && |other| == |deal.secret| && Few(deal, ids)
    ensures FieldDraws(MaskedDeal(deal, other, ids))
  {
    hide Through, Deal.Chunks, Deal.PolyAt, FromBE, IsField;
    var d := MaskedDeal(deal, other, ids);
    forall c: nat, k: nat | c < d.Chunks() && k + 1 < d.params.threshold ensures 0 <= d.draws(c, k) < d.F.p {
      if c < ChunkCount(Prefixed(other)) {
        assert d.draws(c, k) == MaskedPoly(deal, other, ids, c)[k + 1];
      } else {
        assert d.draws(c, k) == 0;
      }
    }
  }

  /**
   Fewer than threshold shares say nothing about the secret beyond its length:
   for every other secret of that length there are coefficients in the field under
   which the split hands out the very same shares.
   */
  lemma BelowThresholdSecrecy(deal: Deal, other: Bytes, ids: seq<byte>)
    requires deal.Valid() && |other| == |deal.secret| && Few(deal, ids)
    ensures exists draws: Draws ::
              var d := Deal(deal.F, deal.params, other, draws);
              d.Valid() && FieldDraws(d) && SameShares(d, deal, ids)
  {
    hide Deal.Body, Deal.Chunks, ScalarField, FieldDraws;
    var d := MaskedDeal(deal, other, ids);
    MaskedInField(deal, other, ids);
    forall i | 0 <= i < |ids|
      ensures d.ShareOf(ids[i]) == deal.ShareOf(ids[i])
    {
      MaskedBody(deal, other, ids, i, deal.Chunks());
    }
    assert Deal(deal.F, deal.params, other, d.draws) == d;
  }

  /** Equal chunk shares mean congruent values. */
  lemma SameShareSameValue(F: Field, f: Poly, g: Poly, id: byte)
    requires 0 < F.p <= Pow256(32) && ChunkShare(F, f, id) == ChunkShare(F, g, id)
    ensures Cong(F.p, Eval(f, id), Eval(g, id))
  {
    hide Cong, Eval, ToBE, FromBE, Pow256;
    var a, b := Eval(f, id), Eval(g, id);
    assert a % F.p == b % F.p;
    CongMod(F.p, a);
    CongMod(F.p, b);
    CongTrans(F.p, a, a % F.p, b);
  }

  /** One chunk: threshold minus one shares and a candidate value leave one polynomial over the field. */
  lemma OnePolyPerChunk(F: Field, f: Poly, g: Poly, ids: seq<byte>)
    requires ScalarField(F) && |f| == |g| == |ids| + 1 && f[0] == g[0] && Distinct(ids) && 0 !in ids
    requires forall k :: 0 <= k < |f| ==> 0 <= f[k] < F.p && 0 <= g[k] < F.p
    requires forall i :: 0 <= i < |ids| ==> ChunkShare(F, f, ids[i]) == ChunkShare(F, g, ids[i])
    ensures f == g
  {
    hide Cong, ChunkShare, Pow256, DistinctMod, Prime;
    var xs := [0] + ids;
    SmallDistinct(F, xs);
    forall i | 0 <= i < |xs| ensures Cong(F.p, Eval(f, xs[i]), Eval(g, xs[i])) {
      if i == 0 {
        assert Eval(f, 0) == f[0] + 0 * Eval(f[1..], 0) && Eval(g, 0) == g[0] + 0 * Eval(g[1..], 0);
        CongRefl(F.p, f[0]);
      } else {
        assert xs[i] == ids[i - 1];
        SameShareSameValue(F, f, g, ids[i - 1]);
      }
    }
    SameCoefficients(F.p, f, g, xs);
  }

  lemma PolyInField(deal: Deal, c: nat)
    requires deal.Valid() && FieldDraws(deal) && c < deal.Chunks()
    ensures forall k :: 0 <= k < deal.params.threshold ==> 0 <= deal.PolyAt(c)[k] < deal.F.p
    ensures forall k: nat :: k + 1 < deal.params.threshold ==> deal.PolyAt(c)[k + 1] == deal.draws(c, k)
  {
    hide FromBE, IsField, Pow256;
    ChunkIsScalar(deal.F, Chunk(deal.Buffer(), c));
  }

  /**
   Perfect secrecy by count: threshold minus one shares and any candidate secret
   leave exactly one choice of field coefficients, so no candidate is likelier.
   */
  lemma OneDrawPerSecret(a: Deal, b: Deal, ids: seq<byte>, c: nat, k: nat)
    requires a.Valid() && b.Valid() && a.F == b.F && a.params == b.params && a.secret == b.secret
    requires FieldDraws(a) && FieldDraws(b) && SameShares(a, b, ids)
    requires Distinct(ids) && 0 !in ids && |ids| == a.params.threshold - 1
    requires c < a.Chunks() && k + 1 < a.params.threshold
    ensures a.draws(c, k) == b.draws(c, k)
  {
    hide Deal.ShareOf, Deal.PolyAt, ChunkShare, Pow256, IsField, FieldDraws, Distinct;
    forall i | 0 <= i < |ids| ensures ChunkShare(a.F, a.PolyAt(c), ids[i]) == ChunkShare(a.F, b.PolyAt(c), ids[i]) {
      a.BlobSlice(ids[i], c);
      b.BlobSlice(ids[i], c);
    }
    PolyInField(a, c);
    PolyInField(b, c);
    OnePolyPerChunk(a.F, a.PolyAt(c), b.PolyAt(c), ids);
  }
}
