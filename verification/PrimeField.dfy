/**
 Polynomials over the integers modulo a prime: what the secret sharing layer
 needs of the secp256k1 scalar field. Values are kept as integers and compared
 by congruence, so that every ring identity is an identity of integers.
 */
module PrimeField {

  function Times(a: int, b: int): int {
    a * b
  }

  ghost predicate Divides(p: int, a: int) {
    exists k :: Times(k, p) == a
  }

  ghost predicate Prime(p: int) {
    p > 1 && forall d :: 1 < d < p ==> !Divides(d, p)
  }

  ghost predicate Cong(p: int, a: int, b: int) {
    Divides(p, a - b)
  }

  lemma MultipleDivides(p: int, k: int)
    ensures Divides(p, k * p)
  {
    assert Times(k, p) == k * p;
  }

  lemma DividesSum(p: int, a: int, b: int)
    requires Divides(p, a) && Divides(p, b)
    ensures Divides(p, a + b)
  {
    var j, k :| Times(j, p) == a && Times(k, p) == b;
    assert Times(j + k, p) == j * p + k * p;
  }

  lemma DividesMultiple(p: int, a: int, k: int)
    requires Divides(p, a)
    ensures Divides(p, k * a)
  {
    var j :| Times(j, p) == a;
    assert Times(k * j, p) == k * (j * p);
  }

  lemma NegDivides(p: int, a: int)
    requires Divides(p, a)
    ensures Divides(p, -a)
  {
    var j :| Times(j, p) == a;
    assert Times(-j, p) == -(j * p);
  }

  lemma ProductAtLeast(k: int, p: int)
    requires k > 0 && p > 0
    ensures k * p >= p
  {
    assert (k - 1) * p >= 0;
  }

  lemma ModOfMultiple(p: int, a: int)
    requires p > 0
    ensures Divides(p, a) <==> a % p == 0
    ensures Divides(p, a - a % p)
  {
    var q, r := a / p, a % p;
    assert a == q * p + r;
    assert Times(q, p) == a - r;
    if Divides(p, a) {
      var k :| Times(k, p) == a;
      assert (k - q) * p == k * p - q * p && (q - k) * p == q * p - k * p;
      if k > q { ProductAtLeast(k - q, p); } else if k < q { ProductAtLeast(q - k, p); }
    }
  }

  lemma CongTrans(p: int, a: int, b: int, c: int)
    requires Cong(p, a, b) && Cong(p, b, c)
    ensures Cong(p, a, c)
  {
    DividesSum(p, a - b, b - c);
  }

  lemma CongSym(p: int, a: int, b: int)
    requires Cong(p, a, b)
    ensures Cong(p, b, a)
  {
    NegDivides(p, a - b);
  }

  lemma CongRefl(p: int, a: int)
    ensures Cong(p, a, a)
  {
    MultipleDivides(p, 0);
  }

  lemma CongAdd(p: int, a: int, a': int, b: int, b': int)
    requires Cong(p, a, a') && Cong(p, b, b')
    ensures Cong(p, a + b, a' + b')
  {
    DividesSum(p, a - a', b - b');
    assert (a - a') + (b - b') == (a + b) - (a' + b');
  }

  lemma CongMul(p: int, a: int, a': int, b: int, b': int)
    requires Cong(p, a, a') && Cong(p, b, b')
    ensures Cong(p, a * b, a' * b')
  {
    DividesMultiple(p, a - a', b);
    DividesMultiple(p, b - b', a');
    DividesSum(p, b * (a - a'), a' * (b - b'));
    assert b * (a - a') + a' * (b - b') == a * b - a' * b';
  }

  lemma CongScale(p: int, c: int, a: int, b: int)
    requires Cong(p, a, b)
    ensures Cong(p, c * a, c * b)
  {
    CongRefl(p, c);
    CongMul(p, c, c, a, b);
  }

  lemma CongMod(p: int, a: int)
    requires p > 0
    ensures Cong(p, a, a % p) && Cong(p, a % p, a)
  {
    ModOfMultiple(p, a);
    CongSym(p, a, a % p);
  }

  lemma CongSmallEqual(p: int, a: int, b: int)
    requires 0 <= a < p && 0 <= b < p && Cong(p, a, b)
    ensures a == b
  {
    var k :| Times(k, p) == a - b;
    if k > 0 { ProductAtLeast(k, p); } else if k < 0 { ProductAtLeast(-k, p); }
  }

  // ---------------------------------------------------------------- inverses

  /** A prime leaves a smaller remainder, not zero, when divided by anything between one and itself. */
  lemma PrimeRemainder(p: int, a: int)
    requires Prime(p) && 1 < a < p
    ensures 0 < p % a < a && p == (p / a) * a + p % a
  {
    hide Divides;
    assert !Divides(a, p);
    NonzeroResidue(a, p);
  }

  /** Inverse of a residue, by the Euclidean recursion p = q*a + r. */
  function Inv(p: int, a: int): (b: int)
    requires Prime(p) && 0 < a < p
    ensures Cong(p, a * b, 1)
    decreases a
  {
    if a == 1 then (CongRefl(p, 1); 1)
    else
      var q, r := p / a, p % a;
      PrimeRemainder(p, a);
      var s := Inv(p, r);
      InvStep(p, a, q, r, s);
      -q * s
  }

  lemma InvStep(p: int, a: int, q: int, r: int, s: int)
    requires p == q * a + r && Cong(p, r * s, 1)
    ensures Cong(p, a * (-q * s), 1)
  {
    assert a * (-q * s) == r * s - s * p by {
      assert a * (-q * s) == -(q * a) * s;
      assert (q * a) * s == (p - r) * s;
    }
    MultipleDivides(p, -s);
    assert a * (-q * s) - 1 == (r * s - 1) + (-s) * p;
    DividesSum(p, r * s - 1, (-s) * p);
  }

  lemma NonzeroResidue(p: int, a: int)
    requires p > 0 && !Divides(p, a)
    ensures 0 < a % p < p
  {
    ModOfMultiple(p, a);
  }

  /** Inverse of any integer that is not a multiple of `p`. */
  function InvOf(p: int, a: int): (b: int)
    requires Prime(p) && !Divides(p, a)
    ensures Cong(p, a * b, 1)
  {
    NonzeroResidue(p, a);
    var b := Inv(p, a % p);
    CongMod(p, a);
    CongRefl(p, b);
    CongMul(p, a, a % p, b, b);
    CongTrans(p, a * b, (a % p) * b, 1);
    b
  }

  /** Euclid's lemma: a prime that divides a product divides a factor. */
  lemma PrimeDividesProduct(p: int, a: int, b: int)
    requires Prime(p) && Divides(p, a * b) && !Divides(p, a)
    ensures Divides(p, b)
  {
    CancelFactor(p, a, b, InvOf(p, a));
  }

  lemma CancelFactor(p: int, a: int, b: int, i: int)
    requires Divides(p, a * b) && Cong(p, a * i, 1)
    ensures Divides(p, b)
  {
    var j :| Times(j, p) == a * b;
    var k :| Times(k, p) == a * i - 1;
    assert (a * i) * b == i * (j * p);
    assert (a * i) * b == (k * p + 1) * b;
    assert Times(i * j - k * b, p) == i * (j * p) - (k * p) * b;
  }

  /** A prime modulus together with the inversion routine of a field library. */
  datatype Field = Field(p: int, inv: int -> int)

  ghost predicate IsField(F: Field) {
    && Prime(F.p)
    && forall a {:trigger F.inv(a)} :: !Divides(F.p, a) ==> Cong(F.p, a * F.inv(a), 1)
  }

  /** Every prime has such a field. */
  lemma FieldExists(p: int) returns (F: Field)
    requires Prime(p)
    ensures F.p == p && IsField(F)
  {
    F := Field(p, a => if Divides(p, a) then 0 else InvOf(p, a));
  }

  // ------------------------------------------------------------- polynomials

  /** Coefficients, lowest degree first. */
  type Poly = seq<int>

  function Eval(f: Poly, x: int): int {
    if f == [] then 0 else f[0] + x * Eval(f[1..], x)
  }

  function Add(f: Poly, g: Poly): (h: Poly)
    ensures |h| == if |f| >= |g| then |f| else |g|
  {
    if f == [] then g else if g == [] then f
    else [f[0] + g[0]] + Add(f[1..], g[1..])
  }

  function Scale(f: Poly, c: int): (h: Poly)
    ensures |h| == |f|
  {
    if f == [] then [] else [c * f[0]] + Scale(f[1..], c)
  }

  lemma {:induction false} EvalAdd(f: Poly, g: Poly, x: int)
    ensures Eval(Add(f, g), x) == Eval(f, x) + Eval(g, x)
  {
    if f != [] && g != [] {
      EvalAdd(f[1..], g[1..], x);
      assert Add(f, g)[1..] == Add(f[1..], g[1..]);
      assert x * (Eval(f[1..], x) + Eval(g[1..], x)) == x * Eval(f[1..], x) + x * Eval(g[1..], x);
    }
  }

  lemma {:induction false} EvalScale(f: Poly, c: int, x: int)
    ensures Eval(Scale(f, c), x) == c * Eval(f, x)
  {
    if f != [] {
      EvalScale(f[1..], c, x);
      assert Scale(f, c)[1..] == Scale(f[1..], c);
      assert x * (c * Eval(f[1..], x)) == c * (x * Eval(f[1..], x));
      assert c * (f[0] + x * Eval(f[1..], x)) == c * f[0] + c * (x * Eval(f[1..], x));
    }
  }

  lemma {:induction false} EvalPad(f: Poly, n: nat, x: int)
    ensures Eval(f + seq(n, _ => 0), x) == Eval(f, x)
  {
    if f != [] {
      assert (f + seq(n, _ => 0))[1..] == f[1..] + seq(n, _ => 0);
      EvalPad(f[1..], n, x);
    } else if n > 0 {
      assert (f + seq(n, _ => 0))[1..] == f + seq(n - 1, _ => 0);
      EvalPad(f, n - 1, x);
    }
  }

  /** The quotient of f(x) - f(r) by x - r. */
  function Quotient(f: Poly, r: int): (q: Poly)
    requires f != []
    ensures |q| == |f| - 1
  {
    if |f| == 1 then [] else [Eval(f[1..], r)] + Quotient(f[1..], r)
  }

  lemma {:induction false} FactorAt(f: Poly, r: int, x: int)
    requires f != []
    ensures Eval(f, x) == Eval(f, r) + (x - r) * Eval(Quotient(f, r), x)
  {
    if |f| > 1 {
      var g, q := f[1..], Quotient(f[1..], r);
      FactorAt(g, r, x);
      assert Quotient(f, r)[1..] == q;
      FactorAlgebra(f[0], x, r, Eval(g, x), Eval(g, r), Eval(q, x));
    }
  }

  lemma FactorAlgebra(c: int, x: int, r: int, gx: int, gr: int, qx: int)
    requires gx == gr + (x - r) * qx
    ensures c + x * gx == c + r * gr + (x - r) * (gr + x * qx)
  {
    assert x * gx == x * gr + x * ((x - r) * qx);
    assert (x - r) * (gr + x * qx) == (x - r) * gr + (x - r) * (x * qx);
    assert x * ((x - r) * qx) == (x - r) * (x * qx);
    assert (x - r) * gr == x * gr - r * gr;
  }

  ghost predicate DistinctMod(p: int, xs: seq<int>)
  {
    forall i, j :: 0 <= i < j < |xs| ==> !Cong(p, xs[i], xs[j])
  }

  ghost predicate AllRoots(p: int, f: Poly, xs: seq<int>)
  {
    forall i :: 0 <= i < |xs| ==> Divides(p, Eval(f, xs[i]))
  }

  /** A polynomial with as many distinct roots as coefficients vanishes everywhere. */
  lemma {:induction false} TooManyRoots(p: int, f: Poly, xs: seq<int>, x: int)
    requires Prime(p)
    requires |xs| >= |f|
    requires DistinctMod(p, xs) && AllRoots(p, f, xs)
    ensures Divides(p, Eval(f, x))
    decreases |f|
  {
    if f == [] {
      MultipleDivides(p, 0);
    } else {
      var r, rest, q := xs[0], xs[1..], Quotient(f, xs[0]);
      forall i | 0 <= i < |rest|
        ensures Divides(p, Eval(q, rest[i]))
      {
        assert rest[i] == xs[i + 1];
        RootOfQuotient(p, f, r, xs[i + 1]);
      }
      assert DistinctMod(p, rest) by {
        forall i, j | 0 <= i < j < |rest| ensures !Cong(p, rest[i], rest[j]) {
          assert !Cong(p, xs[i + 1], xs[j + 1]);
        }
      }
      TooManyRoots(p, q, rest, x);
      FactorAt(f, r, x);
      assert Divides(p, Eval(f, xs[0]));
      DividesMultiple(p, Eval(q, x), x - r);
      DividesSum(p, Eval(f, r), (x - r) * Eval(q, x));
    }
  }

  lemma RootOfQuotient(p: int, f: Poly, r: int, s: int)
    requires Prime(p) && f != [] && !Cong(p, r, s)
    requires Divides(p, Eval(f, r)) && Divides(p, Eval(f, s))
    ensures Divides(p, Eval(Quotient(f, r), s))
  {
    var q := Quotient(f, r);
    FactorAt(f, r, s);
    NegDivides(p, Eval(f, r));
    DividesSum(p, Eval(f, s), -Eval(f, r));
    if Cong(p, s, r) { CongSym(p, s, r); }
    PrimeDividesProduct(p, s - r, Eval(q, s));
  }

  // ------------------------------------------------------------ coefficients

  ghost predicate AllZero(p: int, f: Poly) {
    forall i :: 0 <= i < |f| ==> Divides(p, f[i])
  }

  lemma {:induction false} QuotientZero(p: int, f: Poly, r: int)
    requires f != [] && Divides(p, Eval(f, r)) && AllZero(p, Quotient(f, r))
    ensures AllZero(p, f)
  {
    hide Divides;
    if |f| == 1 {
      assert Eval(f, r) == f[0] + r * Eval(f[1..], r);
    } else {
      var g, q := f[1..], Quotient(f, r);
      assert q[0] == Eval(g, r) && q[1..] == Quotient(g, r);
      assert AllZero(p, Quotient(g, r)) by {
        forall i | 0 <= i < |q| - 1 ensures Divides(p, q[1..][i]) { assert q[1..][i] == q[i + 1]; }
      }
      QuotientZero(p, g, r);
      HeadZero(p, f[0], r, Eval(g, r), Eval(f, r));
      forall i | 0 <= i < |f| ensures Divides(p, f[i]) {
        if i > 0 { assert f[i] == g[i - 1]; }
      }
    }
  }

  lemma HeadZero(p: int, c: int, r: int, tail: int, whole: int)
    requires whole == c + r * tail && Divides(p, tail) && Divides(p, whole)
    ensures Divides(p, c)
  {
    DividesMultiple(p, tail, r);
    NegDivides(p, r * tail);
    DividesSum(p, whole, -(r * tail));
  }

  /** A polynomial with as many distinct roots as coefficients has no nonzero coefficient. */
  lemma {:induction false} CoefficientsVanish(p: int, f: Poly, xs: seq<int>)
    requires Prime(p) && |xs| >= |f| && DistinctMod(p, xs) && AllRoots(p, f, xs)
    ensures AllZero(p, f)
    decreases |f|
  {
    hide Divides, Prime;
    if f != [] {
      var rest, q := xs[1..], Quotient(f, xs[0]);
      forall i | 0 <= i < |rest| ensures Divides(p, Eval(q, rest[i])) {
        assert rest[i] == xs[i + 1];
        RootOfQuotient(p, f, xs[0], xs[i + 1]);
      }
      forall i, j | 0 <= i < j < |rest| ensures !Cong(p, rest[i], rest[j]) {
        assert !Cong(p, xs[i + 1], xs[j + 1]);
      }
      CoefficientsVanish(p, q, rest);
      QuotientZero(p, f, xs[0]);
    }
  }

  lemma {:induction false} DifferenceCoefficients(f: Poly, g: Poly, i: nat)
    requires |f| == |g| && i < |f|
    ensures i < |Add(f, Scale(g, -1))| && Add(f, Scale(g, -1))[i] == f[i] - g[i]
  {
    if i > 0 {
      DifferenceCoefficients(f[1..], g[1..], i - 1);
      assert Add(f, Scale(g, -1))[1..] == Add(f[1..], Scale(g[1..], -1)) by {
        assert Scale(g, -1)[1..] == Scale(g[1..], -1);
      }
    }
  }

  /** Polynomials over the field that agree at as many points as they have coefficients are the same. */
  lemma SameCoefficients(p: int, f: Poly, g: Poly, xs: seq<int>)
    requires Prime(p) && |f| == |g| <= |xs| && DistinctMod(p, xs)
    requires forall i :: 0 <= i < |xs| ==> Cong(p, Eval(f, xs[i]), Eval(g, xs[i]))
    requires forall i :: 0 <= i < |f| ==> 0 <= f[i] < p && 0 <= g[i] < p
    ensures f == g
  {
    hide Divides, Prime, Add, Scale, Eval, DistinctMod;
    var d := Add(f, Scale(g, -1));
    forall i | 0 <= i < |xs| ensures Divides(p, Eval(d, xs[i])) {
      EvalDifference(f, g, xs[i]);
    }
    CoefficientsVanish(p, d, xs);
    forall i | 0 <= i < |f| ensures f[i] == g[i] {
      DifferenceCoefficients(f, g, i);
      CongSmallEqual(p, f[i], g[i]);
    }
  }

  // ------------------------------------------------------------ interpolation

  function Without<T>(xs: seq<T>, i: nat): (r: seq<T>)
    requires i < |xs|
    ensures |r| == |xs| - 1
  {
    xs[..i] + xs[i + 1..]
  }

  /** The product of x - r over the nodes r. */
  function Vanishing(rs: seq<int>, x: int): int {
    if rs == [] then 1 else (x - rs[0]) * Vanishing(rs[1..], x)
  }

  /** Coefficients of the same product. */
  function VanishingPoly(rs: seq<int>): (f: Poly)
    ensures |f| == |rs| + 1
  {
    if rs == [] then [1]
    else
      var g := VanishingPoly(rs[1..]);
      Add([0] + g, Scale(g, -rs[0]))
  }

  lemma {:induction false} EvalVanishing(rs: seq<int>, x: int)
    ensures Eval(VanishingPoly(rs), x) == Vanishing(rs, x)
  {
    if rs == [] {
      assert Eval([1], x) == 1 + x * Eval([], x);
    } else {
      var g := VanishingPoly(rs[1..]);
      EvalVanishing(rs[1..], x);
      EvalAdd([0] + g, Scale(g, -rs[0]), x);
      EvalScale(g, -rs[0], x);
      assert ([0] + g)[1..] == g;
      assert x * Eval(g, x) + (-rs[0]) * Eval(g, x) == (x - rs[0]) * Eval(g, x);
    }
  }

  lemma {:induction false} VanishingAtNode(rs: seq<int>, k: nat)
    requires k < |rs|
    ensures Vanishing(rs, rs[k]) == 0
  {
    if k > 0 {
      VanishingAtNode(rs[1..], k - 1);
    }
  }

  lemma {:induction false} VanishingElsewhere(p: int, rs: seq<int>, x: int)
    requires Prime(p)
    requires forall i :: 0 <= i < |rs| ==> !Cong(p, x, rs[i])
    ensures !Divides(p, Vanishing(rs, x))
  {
    if rs == [] {
      ModOfMultiple(p, 1);
    } else {
      VanishingElsewhere(p, rs[1..], x);
      assert !Cong(p, x, rs[0]);
      if Divides(p, Vanishing(rs, x)) {
        PrimeDividesProduct(p, x - rs[0], Vanishing(rs[1..], x));
        assert false;
      }
    }
  }

  lemma NodesApart(p: int, xs: seq<int>, i: nat)
    requires DistinctMod(p, xs) && i < |xs|
    ensures forall j :: 0 <= j < |Without(xs, i)| ==>
              !Cong(p, xs[i], Without(xs, i)[j]) && !Cong(p, Without(xs, i)[j], xs[i])
  {
    var ws := Without(xs, i);
    forall j | 0 <= j < |ws|
      ensures !Cong(p, xs[i], ws[j]) && !Cong(p, ws[j], xs[i])
    {
      var k := if j < i then j else j + 1;
      assert ws[j] == xs[k];
      if Cong(p, xs[i], xs[k]) { CongSym(p, xs[i], xs[k]); }
      if Cong(p, xs[k], xs[i]) { CongSym(p, xs[k], xs[i]); }
    }
  }

  /** The weight of node i: inverse of the product of its distances. */
  function Weight(p: int, xs: seq<int>, i: nat): (w: int)
    requires Prime(p) && DistinctMod(p, xs) && i < |xs|
    ensures Cong(p, Vanishing(Without(xs, i), xs[i]) * w, 1)
  {
    NodesApart(p, xs, i);
    VanishingElsewhere(p, Without(xs, i), xs[i]);
    InvOf(p, Vanishing(Without(xs, i), xs[i]))
  }

  /** The first n terms of the Lagrange polynomial through the points (xs[i], ys[i]). */
  function Lagrange(p: int, xs: seq<int>, ys: seq<int>, n: nat): (f: Poly)
    requires Prime(p) && DistinctMod(p, xs) && |xs| == |ys| && n <= |xs|
    ensures |f| == if n == 0 then 0 else |xs|
  {
    if n == 0 then []
    else
      Add(Lagrange(p, xs, ys, n - 1),
          Scale(VanishingPoly(Without(xs, n - 1)), ys[n - 1] * Weight(p, xs, n - 1)))
  }

  /** One Lagrange term at x. */
  function TermAt(p: int, xs: seq<int>, ys: seq<int>, i: nat, x: int): int
    requires Prime(p) && DistinctMod(p, xs) && |xs| == |ys| && i < |xs|
  {
    ys[i] * Weight(p, xs, i) * Vanishing(Without(xs, i), x)
  }

  lemma EvalLagrangeStep(p: int, xs: seq<int>, ys: seq<int>, n: nat, x: int)
    requires Prime(p) && DistinctMod(p, xs) && |xs| == |ys| && 0 < n <= |xs|
    ensures Eval(Lagrange(p, xs, ys, n), x) == Eval(Lagrange(p, xs, ys, n - 1), x) + TermAt(p, xs, ys, n - 1, x)
  {
    var v, c := VanishingPoly(Without(xs, n - 1)), ys[n - 1] * Weight(p, xs, n - 1);
    EvalAdd(Lagrange(p, xs, ys, n - 1), Scale(v, c), x);
    EvalScale(v, c, x);
    EvalVanishing(Without(xs, n - 1), x);
  }

  lemma {:induction false} LagrangeAtNode(p: int, xs: seq<int>, ys: seq<int>, n: nat, m: nat)
    requires Prime(p) && DistinctMod(p, xs) && |xs| == |ys| && n <= |xs| && m < |xs|
    ensures Cong(p, Eval(Lagrange(p, xs, ys, n), xs[m]), if m < n then ys[m] else 0)
  {
    hide Cong, Divides, Weight, TermAt, DistinctMod, Prime, Add, Scale, VanishingPoly;
    if n == 0 {
      CongRefl(p, 0);
    } else {
      LagrangeAtNode(p, xs, ys, n - 1, m);
      EvalLagrangeStep(p, xs, ys, n, xs[m]);
      var e, t := Eval(Lagrange(p, xs, ys, n - 1), xs[m]), TermAt(p, xs, ys, n - 1, xs[m]);
      TermAtNode(p, xs, ys, n - 1, m);
      CongAdd(p, e, if m < n - 1 then ys[m] else 0, t, if m == n - 1 then ys[m] else 0);
    }
  }

  lemma TermAtNode(p: int, xs: seq<int>, ys: seq<int>, i: nat, m: nat)
    requires Prime(p) && DistinctMod(p, xs) && |xs| == |ys| && i < |xs| && m < |xs|
    ensures Cong(p, TermAt(p, xs, ys, i, xs[m]), if m == i then ys[m] else 0)
  {
    if m == i {
      UnitTerm(p, ys[i], Weight(p, xs, i), Vanishing(Without(xs, i), xs[i]));
    } else {
      var k := if m < i then m else m - 1;
      assert Without(xs, i)[k] == xs[m];
      VanishingAtNode(Without(xs, i), k);
      CongRefl(p, 0);
    }
  }

  lemma UnitTerm(p: int, y: int, w: int, v: int)
    requires Cong(p, v * w, 1)
    ensures Cong(p, y * w * v, y)
  {
    CongScale(p, y, v * w, 1);
    assert y * (v * w) == y * w * v;
  }

  /**
   Uniqueness: through k points with distinct abscissae runs only one polynomial
   with at most k coefficients, so the Lagrange polynomial of the values of `f`
   agrees with `f` everywhere.
   */
  lemma LagrangeUnique(p: int, f: Poly, xs: seq<int>, ys: seq<int>, x: int)
    requires Prime(p) && DistinctMod(p, xs) && |xs| == |ys| && |f| <= |xs|
    requires forall i :: 0 <= i < |xs| ==> Cong(p, Eval(f, xs[i]), ys[i])
    ensures Cong(p, Eval(Lagrange(p, xs, ys, |xs|), x), Eval(f, x))
  {
    var g := Lagrange(p, xs, ys, |xs|);
    var d := Add(g, Scale(f, -1));
    forall i | 0 <= i < |xs|
      ensures Divides(p, Eval(d, xs[i]))
    {
      DifferenceAtNode(p, f, xs, ys, i);
    }
    TooManyRoots(p, d, xs, x);
    EvalDifference(g, f, x);
  }

  lemma DifferenceAtNode(p: int, f: Poly, xs: seq<int>, ys: seq<int>, i: nat)
    requires Prime(p) && DistinctMod(p, xs) && |xs| == |ys| && i < |xs|
    requires Cong(p, Eval(f, xs[i]), ys[i])
    ensures Divides(p, Eval(Add(Lagrange(p, xs, ys, |xs|), Scale(f, -1)), xs[i]))
  {
    var g := Lagrange(p, xs, ys, |xs|);
    LagrangeAtNode(p, xs, ys, |xs|, i);
    CongSym(p, Eval(f, xs[i]), ys[i]);
    CongTrans(p, Eval(g, xs[i]), ys[i], Eval(f, xs[i]));
    EvalDifference(g, f, xs[i]);
  }

  lemma EvalDifference(f: Poly, g: Poly, x: int)
    ensures Eval(Add(f, Scale(g, -1)), x) == Eval(f, x) - Eval(g, x)
  {
    EvalAdd(f, Scale(g, -1), x);
    EvalScale(g, -1, x);
  }

  // ------------------------------------------- interpolation at zero, as combined

  /** Product over the other nodes r of r / (r - x). */
  function BasisAtZero(F: Field, rs: seq<int>, x: int): int {
    if rs == [] then 1 else rs[0] * F.inv(rs[0] - x) * BasisAtZero(F, rs[1..], x)
  }

  lemma {:induction false} BasisTimesDistances(F: Field, rs: seq<int>, x: int)
    requires IsField(F)
    requires forall i :: 0 <= i < |rs| ==> !Cong(F.p, rs[i], x)
    ensures Cong(F.p, BasisAtZero(F, rs, x) * Vanishing(rs, x), Vanishing(rs, 0))
  {
    if rs == [] {
      CongRefl(F.p, 1);
    } else {
      assert !Cong(F.p, rs[0], x);
      var r, i, b, v, z := rs[0], F.inv(rs[0] - x), BasisAtZero(F, rs[1..], x), Vanishing(rs[1..], x),
          Vanishing(rs[1..], 0);
      BasisTimesDistances(F, rs[1..], x);
      CongMul(F.p, (r - x) * i, 1, b * v, z);
      CongScale(F.p, -r, ((r - x) * i) * (b * v), z);
      BasisAlgebra(r, i, b, x, v);
      assert Vanishing(rs, 0) == (0 - r) * z;
    }
  }

  lemma BasisAlgebra(r: int, i: int, b: int, x: int, v: int)
    ensures (r * i * b) * ((x - r) * v) == -r * (((r - x) * i) * (b * v))
  {
    assert (x - r) * v == -((r - x) * v);
    calc {
      (r * i * b) * ((x - r) * v);
      -((r * i * b) * ((r - x) * v));
      -(r * (i * b * ((r - x) * v)));
      { assert i * b * ((r - x) * v) == ((r - x) * i) * (b * v); }
      -(r * (((r - x) * i) * (b * v)));
    }
  }

  /** Sum of the first n terms ys[i] * BasisAtZero over the share points. */
  function SumAtZero(F: Field, xs: seq<int>, ys: seq<int>, n: nat): int
    requires |xs| == |ys| && n <= |xs|
  {
    if n == 0 then 0
    else SumAtZero(F, xs, ys, n - 1) + ys[n - 1] * BasisAtZero(F, Without(xs, n - 1), xs[n - 1])
  }

  lemma {:induction false} SumIsLagrange(F: Field, xs: seq<int>, ys: seq<int>, n: nat)
    requires IsField(F) && DistinctMod(F.p, xs) && |xs| == |ys| && n <= |xs|
    ensures Cong(F.p, SumAtZero(F, xs, ys, n), Eval(Lagrange(F.p, xs, ys, n), 0))
  {
    hide Cong, Divides, Weight, Vanishing, BasisAtZero, DistinctMod, Prime, Add, Scale, VanishingPoly;
    if n == 0 {
      CongRefl(F.p, 0);
    } else {
      SumIsLagrange(F, xs, ys, n - 1);
      EvalLagrangeStep(F.p, xs, ys, n, 0);
      var i := n - 1;
      NodesApart(F.p, xs, i);
      var ws, w := Without(xs, i), Weight(F.p, xs, i);
      var b, d, z := BasisAtZero(F, ws, xs[i]), Vanishing(ws, xs[i]), Vanishing(ws, 0);
      BasisTimesDistances(F, ws, xs[i]);
      BasisIsWeighted(F.p, ys[i], b, d, w, z);
      CongAdd(F.p, SumAtZero(F, xs, ys, i), Eval(Lagrange(F.p, xs, ys, i), 0), ys[i] * b, TermAt(F.p, xs, ys, i, 0));
    }
  }

  lemma BasisIsWeighted(p: int, y: int, b: int, d: int, w: int, z: int)
    requires Cong(p, d * w, 1) && Cong(p, b * d, z)
    ensures Cong(p, y * b, y * w * z)
  {
    CongScale(p, b, d * w, 1);
    CongSym(p, b * (d * w), b);
    CongScale(p, w, b * d, z);
    assert b * (d * w) == w * (b * d);
    CongTrans(p, b, b * (d * w), w * z);
    CongScale(p, y, b, w * z);
    assert y * (w * z) == y * w * z;
  }

  /** Lagrange interpolation at zero recovers f(0) from at least |f| distinct points of f. */
  lemma InterpolationAtZero(F: Field, f: Poly, xs: seq<int>, ys: seq<int>)
    requires IsField(F) && DistinctMod(F.p, xs) && |xs| == |ys| && 0 < |f| <= |xs|
    requires forall i :: 0 <= i < |xs| ==> Cong(F.p, Eval(f, xs[i]), ys[i])
    ensures Cong(F.p, SumAtZero(F, xs, ys, |xs|), f[0])
  {
    hide Cong, Divides, SumAtZero, Lagrange, DistinctMod, Prime;
    SumIsLagrange(F, xs, ys, |xs|);
    LagrangeUnique(F.p, f, xs, ys, 0);
    CongTrans(F.p, SumAtZero(F, xs, ys, |xs|), Eval(Lagrange(F.p, xs, ys, |xs|), 0), Eval(f, 0));
    assert Eval(f, 0) == f[0] + 0 * Eval(f[1..], 0);
  }
}
