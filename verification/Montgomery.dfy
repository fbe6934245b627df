/**
 The arithmetic that `struct bn_mont_ctx_st` is set up for. The header shows the context
 and the conversion macro; the reduction is the one its `Ni` comment describes.
 */
module Montgomery {
  import opened BigNat
  import opened Bignum

  /** The fields of `struct bn_mont_ctx_st` as integers, with `rInv` for the 1/R mod N of the comment. */
  datatype MontCtx = MontCtx(ri: nat, RR: nat, N: nat, Ni: nat, rInv: nat) {
    function R(): (r: nat)
      ensures r >= 1
    {
      Pow(2, ri)
    }

    /** `R*(1/R mod N) - N*Ni = 1`, and RR is R^2 mod N. */
    predicate Valid() {
      && 0 < N < R()
      && R() * rInv - N * Ni == 1
      && RR == R() * R() % N
    }
  }

  /** `ri` counts the zero bits of R below its single one. */
  lemma RBits(m: MontCtx)
    ensures NumBits(m.R()) == m.ri + 1
  {
    var n := NumBits(m.R());
    NumBitsLeast(m.R());
    if n <= m.ri {
      PowMono(2, n, m.ri);
    } else if n > m.ri + 1 {
      PowStrict(2, m.ri, n - 1);
    }
  }

  // ----- congruence -----

  /** `x` and `y` differ by `k` times `n`. */
  predicate Apart(x: int, y: int, n: nat, k: int) {
    x == y + n * k
  }

  lemma ApartMod(x: int, y: int, n: nat, k: int)
    requires n > 0 && Apart(x, y, n, k)
    ensures x % n == y % n
  {
    var qx, qy := x / n, y / n;
    var rx, ry := x % n, y % n;
    assert x == n * qx + rx && y == n * qy + ry;
    var m := k + qy - qx;
    assert rx - ry == n * m by {
      assert n * m == n * k + n * qy - n * qx by {
        Spread(n, k, qy, qx);
      }
    }
    SmallMultiple(n, m);
  }

  lemma Spread(n: int, a: int, b: int, c: int)
    ensures n * (a + b - c) == n * a + n * b - n * c
  {
  }

  lemma SmallMultiple(n: int, m: int)
    requires n > 0
    ensures -n < n * m < n ==> m == 0
  {
    if m >= 1 {
      assert n * m >= n * 1;
    } else if m <= -1 {
      assert n * m <= n * (-1);
    }
  }

  lemma ModApart(x: int, n: nat) returns (k: int)
    requires n > 0
    ensures Apart(x, x % n, n, k)
  {
    k := x / n;
  }

  lemma ScaleApart(x: int, y: int, n: nat, k: int, c: int)
    requires Apart(x, y, n, k)
    ensures Apart(c * x, c * y, n, c * k)
  {
    assert c * (y + n * k) == c * y + c * (n * k);
    assert c * (n * k) == n * (c * k);
  }

  /** Multiplying congruent numbers keeps them congruent. */
  lemma ScaleMod(x: int, y: int, n: nat, c: int)
    requires n > 0 && x % n == y % n
    ensures (c * x) % n == (c * y) % n
  {
    var j := ModApart(x, n);
    var k := ModApart(y, n);
    ScaleApart(x, x % n, n, j, c);
    ScaleApart(y, y % n, n, k, c);
    ApartMod(c * x, c * (x % n), n, c * j);
    ApartMod(c * y, c * (y % n), n, c * k);
  }

  // ----- reduction -----

  /** The multiple of N that makes T divisible by R. */
  function Factor(m: MontCtx, t: nat): (f: nat)
    requires m.Valid()
    ensures f < m.R()
  {
    Product(t % m.R(), m.Ni);
    t % m.R() * m.Ni % m.R()
  }

  /** `BN_from_montgomery` on a product below N*R. */
  function Reduce(m: MontCtx, t: nat): nat
    requires m.Valid()
  {
    Product(Factor(m, t), m.N);
    var u := (t + Factor(m, t) * m.N) / m.R();
    if u >= m.N then u - m.N else u
  }

  /** The division by R is exact. */
  lemma ExactDivision(m: MontCtx, t: nat)
    requires m.Valid()
    ensures (t + Factor(m, t) * m.N) % m.R() == 0
  {
    var r, n, ni, f := m.R(), m.N, m.Ni, Factor(m, t);
    var low := t % r;
    // f = low * ni (mod R), hence f * n = low * (n * ni) = low * (R*rInv - 1) = -low (mod R)
    var j := ModApart(low * ni, r);
    assert low * ni == f + r * j;
    var k := t / r;
    assert t == r * k + low;
    var c := m.rInv;
    assert n * ni == r * c - 1;
    FactorTimesN(n, f, low, ni, r, j, c);
    var z := k + low * c - n * j;
    assert t + f * n == r * z by {
      assert r * z == r * k + r * (low * c) - r * (n * j) by {
        Spread(r, k, low * c, n * j);
      }
    }
    assert Apart(t + f * n, 0, r, z);
    ApartMod(t + f * n, 0, r, z);
  }

  lemma FactorTimesN(n: int, f: int, low: int, ni: int, r: int, j: int, c: int)
    requires low * ni == f + r * j && n * ni == r * c - 1
    ensures f * n == r * (low * c) - low - r * (n * j)
  {
    assert f * n == (low * ni - r * j) * n;
    assert (low * ni - r * j) * n == low * ni * n - r * j * n;
    assert low * ni * n == low * (n * ni) == low * (r * c - 1) == low * (r * c) - low;
    assert low * (r * c) == r * (low * c);
    assert r * j * n == r * (n * j);
  }

  /** The result is reduced, and R times it is T modulo N. */
  lemma ReduceCorrect(m: MontCtx, t: nat)
    requires m.Valid() && t < m.N * m.R()
    ensures Reduce(m, t) < m.N
    ensures m.R() * Reduce(m, t) % m.N == t % m.N
  {
    hide Pow;
    var r, n, f := m.R(), m.N, Factor(m, t);
    Product(f, n);
    var s: nat := t + f * n;
    var u := s / r;
    ExactDivision(m, t);
    hide Factor;
    assert s == r * u;
    OneSubtraction(t, f, n, r, u);
    var e := if u >= n then f - r else f;
    ApartMod(r * Reduce(m, t), t, n, e);
  }

  lemma OneSubtraction(t: nat, f: nat, n: nat, r: nat, u: nat)
    requires t < n * r && f < r && n > 0 && t + f * n == r * u
    ensures u < 2 * n
    ensures Apart(r * u, t, n, f) && Apart(r * (u - n), t, n, f - r)
  {
    StrictScale(f, r, n);
    QuotientBelow(r, u, n);
    var m: int, s: int := n, r;
    Distribute(r, u, -m);
    Distribute(n, f, -s);
  }

  lemma QuotientBelow(r: nat, u: nat, n: nat)
    requires r * u < n * r + r * n
    ensures u < 2 * n
  {
    Distribute(r, n, n);
    if u >= n + n {
      MulMono(r, n + n, u);
    }
  }

  lemma StrictScale(x: nat, y: nat, n: nat)
    requires x < y && n > 0
    ensures x * n < y * n
  {
    MulMono(n, x + 1, y);
    Distribute(n, x, 1);
  }

  /** Two reduced numbers that agree modulo N after multiplication by R are equal. */
  lemma CancelR(m: MontCtx, x: nat, y: nat)
    requires m.Valid() && x < m.N && y < m.N
    requires m.R() * x % m.N == m.R() * y % m.N
    ensures x == y
  {
    var r, n, c := m.R(), m.N, m.rInv;
    ScaleMod(r * x, r * y, n, c);
    UndoR(r, n, c, m.Ni, x);
    UndoR(r, n, c, m.Ni, y);
    DivModUnique(x, n, 0, x);
    DivModUnique(y, n, 0, y);
  }

  lemma UndoR(r: nat, n: nat, c: nat, ni: nat, x: nat)
    requires n > 0 && r * c - n * ni == 1
    ensures c * (r * x) % n == x % n
  {
    assert c * (r * x) == (r * c) * x == (1 + n * ni) * x == x + (n * ni) * x;
    assert (n * ni) * x == n * (ni * x);
    assert Apart(c * (r * x), x, n, ni * x);
    ApartMod(c * (r * x), x, n, ni * x);
  }

  // ----- conversion -----

  /** `BN_mod_mul_montgomery` */
  function MulMont(m: MontCtx, a: nat, b: nat): nat
    requires m.Valid()
  {
    Product(a, b);
    Reduce(m, a * b)
  }

  /** `BN_to_montgomery` */
  function ToMont(m: MontCtx, a: nat): nat
    requires m.Valid()
  {
    MulMont(m, a, m.RR)
  }

  function FromMont(m: MontCtx, a: nat): nat
    requires m.Valid()
  {
    Reduce(m, a)
  }

  lemma ProductBelow(a: nat, b: nat, n: nat, r: nat)
    requires a < r && b < n
    ensures 0 <= a * b < n * r
  {
    Product(a, b);
    MulMono(a, b, n);
    StrictScale(a, r, n);
    assert r * n == n * r;
  }

  /** `BN_to_montgomery(a)` is a*R mod N, for every `a` below R. */
  lemma ToMontIs(m: MontCtx, a: nat)
    requires m.Valid() && a < m.R()
    ensures ToMont(m, a) == a * m.R() % m.N
  {
    hide Reduce;
    hide Pow;
    var r, n := m.R(), m.N;
    Product(r, r);
    Product(a, r);
    var x, y := ToMont(m, a), a * r % n;
    DivModUnique(m.RR, n, 0, m.RR);
    DivModUnique(y, n, 0, y);
    ProductBelow(a, m.RR, n, r);
    ReduceCorrect(m, a * m.RR);
    ThroughRR(a, r, n, m.RR, y);
    CancelR(m, x, y);
  }

  lemma ThroughRR(a: nat, r: nat, n: nat, rr: nat, y: nat)
    requires n > 0 && rr % n == r * r % n && y % n == a * r % n
    ensures a * rr % n == r * y % n
  {
    // a*RR = a*R*R = R*y
    ScaleMod(rr, r * r, n, a);
    ScaleMod(y, a * r, n, r);
    assert a * (r * r) == r * (a * r);
  }

  /** Leaving Montgomery form undoes entering it, up to reduction modulo N. */
  lemma FromToMont(m: MontCtx, a: nat)
    requires m.Valid() && a < m.R()
    ensures FromMont(m, ToMont(m, a)) == a % m.N
    ensures FromMont(m, ToMont(m, a)) == a <==> a < m.N
  {
    hide Reduce;
    hide Pow;
    var r, n := m.R(), m.N;
    ToMontIs(m, a);
    Product(a, r);
    var x := ToMont(m, a);
    assert x < n;
    ProductBelow(1, x, n, r);
    ReduceCorrect(m, x);
    var z, y := FromMont(m, x), a % n;
    // R*z = x = a*R = R*y (mod N)
    assert x % n == a * r % n by { DivModUnique(x, n, 0, x); }
    assert y % n == a % n by { DivModUnique(y, n, 0, y); }
    ScaleMod(y, a, n, r);
    assert r * a == a * r;
    CancelR(m, z, y);
    if a < n {
      DivModUnique(a, n, 0, a);
    }
  }

  /** Multiplication in Montgomery form is multiplication modulo N. */
  lemma MulMontIs(m: MontCtx, a: nat, b: nat)
    requires m.Valid() && a < m.R() && b < m.R()
    ensures (Product(a, b); a * b % m.N < m.R())
    ensures (Product(a, b); MulMont(m, ToMont(m, a), ToMont(m, b)) == ToMont(m, a * b % m.N))
  {
    hide Reduce;
    hide Pow;
    hide ToMont;
    var r, n := m.R(), m.N;
    Product(a, b);
    var p := a * b % n;
    var x, y, w := ToMont(m, a), ToMont(m, b), ToMont(m, p);
    InRange(m, a);
    InRange(m, b);
    InRange(m, p);
    ProductBelow(x, y, n, r);
    ReduceCorrect(m, x * y);
    DivModUnique(p, n, 0, p);
    MontProduct(a, b, r, n, x, y, p, w);
    CancelR(m, MulMont(m, x, y), w);
  }

  lemma InRange(m: MontCtx, a: nat)
    requires m.Valid() && a < m.R()
    ensures ToMont(m, a) < m.N
    ensures (Product(a, m.R()); ToMont(m, a) % m.N == a * m.R() % m.N)
  {
    hide Reduce;
    hide Pow;
    ToMontIs(m, a);
    Product(a, m.R());
    DivModUnique(ToMont(m, a), m.N, 0, ToMont(m, a));
  }

  lemma MontProduct(a: nat, b: nat, r: nat, n: nat, x: nat, y: nat, p: nat, w: nat)
    requires n > 0 && x % n == a * r % n && y % n == b * r % n && p % n == a * b % n && w % n == p * r % n
    ensures r * w % n == x * y % n
  {
    // x*y = x*(b*R) = (a*R)*(b*R)
    ScaleMod(y, b * r, n, x);
    ScaleMod(x, a * r, n, b * r);
    assert x * (b * r) == b * r * x;
    // R*w = R*(p*R) = R*R*(a*b)
    ScaleMod(w, p * r, n, r);
    ScaleMod(p, a * b, n, r * r);
    assert r * (p * r) == r * r * p;
    assert b * r * (a * r) == r * r * (a * b) by { Regroup(a, b, r); }
  }

  lemma Regroup(a: int, b: int, r: int)
    ensures b * r * (a * r) == r * r * (a * b)
  {
    assert b * r * (a * r) == (b * r * a) * r;
    assert b * r * a == r * (a * b);
  }
}
