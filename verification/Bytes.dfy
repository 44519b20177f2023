/** Bytes, and the big-endian number encodings every wire format here is built from. */
module Bytes {

  type byte = b: int | 0 <= b < 256

  type Bytes = seq<byte>

  datatype Option<+T> = None | Some(value: T)

  /** The bytes of an ASCII text. */
  function AsciiOf(text: string): (b: Bytes)
    ensures |b| == |text|
  {
    seq(|text|, i requires 0 <= i < |text| => if text[i] as int < 128 then text[i] as int else 0x3f)
  }

  lemma SliceOfLeft<T>(a: seq<T>, b: seq<T>, lo: nat, hi: nat)
    requires lo <= hi <= |a|
    ensures (a + b)[lo..hi] == a[lo..hi]
  {
  }

  lemma SliceOfRight<T>(a: seq<T>, b: seq<T>, lo: nat, hi: nat)
    requires lo <= hi <= |b|
    ensures (a + b)[|a| + lo..|a| + hi] == b[lo..hi]
  {
  }

  lemma SliceOfLast<T>(a: seq<T>, b: seq<T>, lo: nat, hi: nat)
    requires lo == |a| && hi == lo + |b|
    ensures (a + b)[lo..hi] == b
  {
  }

  function Pow256(n: nat): (r: nat)
    ensures r >= 1
  {
    if n == 0 then 1 else 256 * Pow256(n - 1)
  }

  lemma {:induction false} Pow256Monotone(m: nat, n: nat)
    requires m <= n
    ensures Pow256(m) <= Pow256(n)
    decreases n
  {
    if m < n {
      Pow256Monotone(m, n - 1);
    }
  }

  /** Powers of 256 behind the machine widths of the source. */
  lemma MachineWidths()
    ensures Pow256(4) == 0x1_0000_0000
    ensures Pow256(8) == 0x1_0000_0000_0000_0000
    ensures Pow256(16) == 0x1_0000_0000_0000_0000_0000_0000_0000_0000
  {
    assert Pow256(4) == 256 * (256 * (256 * (256 * Pow256(0))));
    assert Pow256(8) == 256 * (256 * (256 * (256 * Pow256(4))));
    assert Pow256(12) == 256 * (256 * (256 * (256 * Pow256(8))));
    assert Pow256(16) == 256 * (256 * (256 * (256 * Pow256(12))));
  }

  /** `from_be_bytes`: the number a big-endian byte string denotes. */
  function FromBE(s: Bytes): (n: nat)
    ensures n < Pow256(|s|)
  {
    if s == [] then 0 else 256 * FromBE(s[..|s| - 1]) + s[|s| - 1]
  }

  /** `to_be_bytes`: the big-endian form of `n` in exactly `len` bytes. */
  function ToBE(n: nat, len: nat): (s: Bytes)
    requires n < Pow256(len)
    ensures |s| == len
    ensures FromBE(s) == n
  {
    if len == 0 then []
    else
      var hi := ToBE(n / 256, len - 1);
      var s := hi + [n % 256];
      assert s[..|s| - 1] == hi;
      s
  }

  /** A 32-bit number in four bytes, big end first. */
  function ToBE4(n: nat): (s: Bytes)
    ensures |s| == 4 && (n < 0x1_0000_0000 ==> FromBE(s) == n)
  {
    MachineWidths();
    ToBE(n % 0x1_0000_0000, 4)
  }

  /** A 64-bit number in eight bytes, big end first. */
  function ToBE8(n: nat): (s: Bytes)
    ensures |s| == 8 && (n < 0x1_0000_0000_0000_0000 ==> FromBE(s) == n)
  {
    MachineWidths();
    ToBE(n % 0x1_0000_0000_0000_0000, 8)
  }

  lemma {:induction false} ToBEOfFromBE(s: Bytes)
    ensures ToBE(FromBE(s), |s|) == s
  {
    if s != [] {
      var hi, lo := s[..|s| - 1], s[|s| - 1];
      ToBEOfFromBE(hi);
      DigitsOf(FromBE(s), FromBE(hi), lo);
      assert s == hi + [lo];
    }
  }

  /** Equal-length byte strings that denote the same number are the same. */
  lemma FromBEInjective(a: Bytes, b: Bytes)
    requires |a| == |b|
    requires FromBE(a) == FromBE(b)
    ensures a == b
  {
    ToBEOfFromBE(a);
    ToBEOfFromBE(b);
  }

  /** No leading zero byte: the form RLP demands of numbers and of lengths. */
  predicate Minimal(s: Bytes) {
    s == [] || s[0] != 0
  }

  /** The shortest big-endian form of `n`; empty for zero. */
  function MinBE(n: nat): (s: Bytes)
    ensures Minimal(s)
    ensures FromBE(s) == n
  {
    if n == 0 then []
    else
      var hi := MinBE(n / 256);
      var s := hi + [n % 256];
      assert s[..|s| - 1] == hi;
      s
  }

  lemma {:induction false} MinBEOfFromBE(s: Bytes)
    requires Minimal(s)
    ensures MinBE(FromBE(s)) == s
  {
    if s != [] {
      var hi, lo := s[..|s| - 1], s[|s| - 1];
      MinBEOfFromBE(hi);
      MinimalPositive(s);
      DigitsOf(FromBE(s), FromBE(hi), lo);
      assert s == hi + [lo];
    }
  }

  lemma DigitsOf(n: nat, hi: nat, lo: byte)
    requires n == 256 * hi + lo
    ensures n / 256 == hi && n % 256 == lo
  {
  }

  lemma {:induction false} MinimalPositive(s: Bytes)
    requires s != [] && s[0] != 0
    ensures FromBE(s) > 0
  {
    if |s| > 1 {
      MinimalPositive(s[..|s| - 1]);
    }
  }

  lemma {:induction false} MinBELength(n: nat, len: nat)
    ensures |MinBE(n)| <= len <==> n < Pow256(len)
  {
    if n > 0 && len > 0 {
      MinBELength(n / 256, len - 1);
    }
  }

  /** Leading zero bytes dropped, as `rlp_scalar` does before encoding a number. */
  function StripZeros(s: Bytes): (r: Bytes)
    ensures Minimal(r)
  {
    if s == [] || s[0] != 0 then s else StripZeros(s[1..])
  }

  lemma {:induction false} FromBELeadingZero(s: Bytes)
    requires s != [] && s[0] == 0
    ensures FromBE(s) == FromBE(s[1..])
  {
    if |s| > 1 {
      FromBELeadingZero(s[..|s| - 1]);
      assert s[..|s| - 1][1..] == s[1..][..|s| - 2];
    }
  }

  /** Stripping the zeros of any big-endian form of `n` leaves the shortest form. */
  lemma {:induction false} StripZerosIsMinBE(s: Bytes)
    ensures StripZeros(s) == MinBE(FromBE(s))
  {
    if s == [] || s[0] != 0 {
      MinBEOfFromBE(s);
    } else {
      StripZerosIsMinBE(s[1..]);
      FromBELeadingZero(s);
    }
  }

  /** Two's-complement reading of an `i64` as the `u64` with the same bytes. */
  function TwosComplement64(t: int): (n: nat)
    requires -0x8000_0000_0000_0000 <= t < 0x8000_0000_0000_0000
    ensures n < 0x1_0000_0000_0000_0000
  {
    if t < 0 then t + 0x1_0000_0000_0000_0000 else t
  }
}
