/** The saturating machine arithmetic behind every age check, and the exact window it leaves. */
module Freshness {
  import opened WalletTypes

  const I64_MAX := 0x7fff_ffff_ffff_ffff
  const I64_MIN := -0x8000_0000_0000_0000
  const U32_MAX := 0xffff_ffff

  /** `i64::saturating_sub`. */
  function SaturatingSub(a: int, b: int): (r: int)
    requires I64(a) && I64(b)
    ensures I64(r)
  {
    if a - b > I64_MAX then I64_MAX else if a - b < I64_MIN then I64_MIN else a - b
  }

  /** `u32::try_from(..).unwrap_or(u32::MAX)`. */
  function ToU32OrMax(n: int): (r: nat)
    ensures r <= U32_MAX
  {
    if 0 <= n <= U32_MAX then n else U32_MAX
  }

  /** The saturated age test of `verify` is the exact one: no clamp ever changes the verdict. */
  lemma DecisionAgeExactly(now: int, signedAt: int, maxAge: nat)
    requires I64(now) && I64(signedAt) && maxAge <= 86400
    ensures (SaturatingSub(now, signedAt) >= 0 && ToU32OrMax(SaturatingSub(now, signedAt) / 1000) <= maxAge)
            <==> 0 <= now - signedAt < 1000 * (maxAge + 1)
  {
  }

  lemma ApprovalAgeExactly(now: int, signedAt: int, maxAge: nat)
    requires I64(now) && I64(signedAt) && maxAge <= 86400
    ensures (SaturatingSub(now, signedAt) >= 0 && SaturatingSub(now, signedAt) / 1000 <= maxAge)
            <==> 0 <= now - signedAt < 1000 * (maxAge + 1)
  {
  }
}
