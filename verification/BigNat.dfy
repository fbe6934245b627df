/**
 Magnitudes as little-endian digit sequences in a fixed base, and their normal form. Used
 for the words of a BIGNUM (base 2^BN_BITS2) and for its decimal chunks (base BN_DEC_CONV).
 */
module BigNat {

  function Pow(b: nat, e: nat): (r: nat)
    ensures b >= 1 ==> r >= 1
  {
    if e == 0 then 1
    else
      var p := Pow(b, e - 1);
      Product(b, p);
      b * p
  }

  lemma Product(x: nat, y: nat)
    ensures 0 <= x * y
    ensures x >= 1 && y >= 1 ==> x * y >= 1
  {
  }

  predicate Digits(s: seq<nat>, base: nat) {
    forall i :: 0 <= i < |s| ==> s[i] < base
  }

  function Value(s: seq<nat>, base: nat): nat {
    if s == [] then 0
    else
      Product(base, Value(s[1..], base));
      s[0] + base * Value(s[1..], base)
  }

  /** The condition that `bn_check_top` asserts. */
  predicate Normal(s: seq<nat>) {
    s == [] || s[|s| - 1] != 0
  }

  /** `s` without its leading (most significant) zeros. */
  function Trim(s: seq<nat>): (r: seq<nat>)
    ensures r <= s && Normal(r)
  {
    if s != [] && s[|s| - 1] == 0 then Trim(s[..|s| - 1]) else s
  }

  // ----- arithmetic -----

  lemma MulMono(a: nat, x: nat, y: nat)
    requires x <= y
    ensures a * x <= a * y
  {
  }

  lemma Distribute(a: int, x: int, y: int)
    ensures a * (x + y) == a * x + a * y
  {
  }

  lemma DivModUnique(n: nat, b: nat, q: nat, r: nat)
    requires 0 <= r < b && n == b * q + r
    ensures n / b == q && n % b == r
  {
    var q', r' := n / b, n % b;
    assert n == b * q' + r';
    if q < q' {
      MulMono(b, q + 1, q');
      Distribute(b, q, 1);
    } else if q' < q {
      MulMono(b, q' + 1, q);
      Distribute(b, q', 1);
    }
  }

  lemma {:induction false} PowAdd(b: nat, m: nat, n: nat)
    ensures Pow(b, m + n) == Pow(b, m) * Pow(b, n)
  {
    if m == 0 {
    } else {
      PowAdd(b, m - 1, n);
      MulAssoc(b, Pow(b, m - 1), Pow(b, n));
    }
  }

  lemma MulAssoc(x: int, y: int, z: int)
    ensures x * (y * z) == (x * y) * z
  {
  }

  lemma {:induction false} PowPow(b: nat, m: nat, n: nat)
    ensures Pow(Pow(b, m), n) == (Product(m, n); Pow(b, m * n))
  {
    if n == 0 {
    } else {
      Product(m, n - 1);
      Distribute(m, n - 1, 1);
      PowPow(b, m, n - 1);
      PowAdd(b, m, m * (n - 1));
    }
  }

  lemma {:induction false} PowMono(b: nat, m: nat, n: nat)
    requires b >= 1 && m <= n
    ensures Pow(b, m) <= Pow(b, n)
    decreases n
  {
    if m < n {
      PowMono(b, m, n - 1);
      MulMono(Pow(b, n - 1), 1, b);
    }
  }

  lemma PowStrict(b: nat, m: nat, n: nat)
    requires b >= 2 && m < n
    ensures Pow(b, m) < Pow(b, n)
  {
    PowMono(b, m, n - 1);
    MulMono(Pow(b, n - 1), 2, b);
  }

  // ----- value and length -----

  lemma {:induction false} ValueAppend(s: seq<nat>, w: nat, base: nat)
    ensures Value(s + [w], base) == Value(s, base) + Pow(base, |s|) * w
  {
    if s == [] {
      assert ([] + [w])[1..] == [];
    } else {
      assert (s + [w])[1..] == s[1..] + [w];
      ValueAppend(s[1..], w, base);
      Distribute(base, Value(s[1..], base), Pow(base, |s| - 1) * w);
      MulAssoc(base, Pow(base, |s| - 1), w);
    }
  }

  lemma {:induction false} ValueBound(s: seq<nat>, base: nat)
    requires Digits(s, base)
    ensures Value(s, base) < Pow(base, |s|)
  {
    if s != [] {
      ValueBound(s[1..], base);
      MulMono(base, Value(s[1..], base) + 1, Pow(base, |s| - 1));
      Distribute(base, Value(s[1..], base), 1);
    }
  }

  lemma NormalBound(s: seq<nat>, base: nat)
    requires Digits(s, base) && Normal(s) && s != []
    ensures Value(s, base) >= Pow(base, |s| - 1)
  {
    var k := |s| - 1;
    assert s == s[..k] + [s[k]];
    ValueAppend(s[..k], s[k], base);
    MulMono(Pow(base, k), 1, s[k]);
  }

  /** The length of a normal form is the least length that can hold its value. */
  lemma {:induction false} NormalLeast(s: seq<nat>, t: seq<nat>, base: nat)
    requires base >= 2 && Digits(s, base) && Digits(t, base) && Normal(s)
    requires Value(s, base) == Value(t, base)
    ensures |s| <= |t|
  {
    if s != [] && |t| < |s| {
      NormalBound(s, base);
      ValueBound(t, base);
      PowMono(base, |t|, |s| - 1);
    }
  }

  /** Two normal forms with one value are one. */
  lemma {:induction false} NormalUnique(s: seq<nat>, t: seq<nat>, base: nat)
    requires base >= 2 && Digits(s, base) && Digits(t, base) && Normal(s) && Normal(t)
    requires Value(s, base) == Value(t, base)
    ensures s == t
    decreases |s|
  {
    NormalLeast(s, t, base);
    NormalLeast(t, s, base);
    if s != [] {
      DivModUnique(Value(s, base), base, Value(s[1..], base), s[0]);
      DivModUnique(Value(t, base), base, Value(t[1..], base), t[0]);
      NormalUnique(s[1..], t[1..], base);
      assert s == [s[0]] + s[1..] && t == [t[0]] + t[1..];
    }
  }

  lemma {:induction false} TrimValue(s: seq<nat>, base: nat)
    ensures Value(Trim(s), base) == Value(s, base)
  {
    if s != [] && s[|s| - 1] == 0 {
      var k := |s| - 1;
      assert s == s[..k] + [0];
      ValueAppend(s[..k], 0, base);
      TrimValue(s[..k], base);
    }
  }

  /** Trimming decides equality of values. */
  lemma TrimCanonical(s: seq<nat>, t: seq<nat>, base: nat)
    requires base >= 2 && Digits(s, base) && Digits(t, base)
    ensures Trim(s) == Trim(t) <==> Value(s, base) == Value(t, base)
  {
    TrimValue(s, base);
    TrimValue(t, base);
    if Value(s, base) == Value(t, base) {
      NormalUnique(Trim(s), Trim(t), base);
    }
  }

  lemma TrimNormal(s: seq<nat>)
    ensures Trim(s) == s <==> Normal(s)
  {
  }

  // ----- numbers to digits -----

  function FromNat(n: nat, base: nat): (s: seq<nat>)
    requires base >= 2
    ensures Digits(s, base) && Normal(s)
  {
    if n == 0 then []
    else
      Smaller(n, base);
      [n % base] + FromNat(n / base, base)
  }

  lemma Smaller(n: nat, base: nat)
    requires base >= 2 && n > 0
    ensures 0 <= n / base < n && n == base * (n / base) + n % base
    ensures n / base == 0 ==> n % base != 0
  {
    var q := n / base;
    assert n == base * q + n % base;
    MulMono(q, 2, base);
  }

  lemma ValueCons(w: nat, s: seq<nat>, base: nat)
    ensures Value([w] + s, base) == w + base * Value(s, base)
  {
    assert ([w] + s)[1..] == s;
  }

  lemma {:induction false} FromNatValue(n: nat, base: nat)
    requires base >= 2
    ensures Value(FromNat(n, base), base) == n
  {
    if n > 0 {
      Smaller(n, base);
      FromNatValue(n / base, base);
      ValueCons(n % base, FromNat(n / base, base), base);
    }
  }

  /** A number fits `k` digits exactly when it is below the `k`-th power of the base. */
  lemma FromNatFits(n: nat, base: nat, k: nat)
    requires base >= 2
    ensures |FromNat(n, base)| <= k <==> n < Pow(base, k)
  {
    var s := FromNat(n, base);
    FromNatValue(n, base);
    ValueBound(s, base);
    if |s| <= k {
      PowMono(base, |s|, k);
    } else {
      NormalBound(s, base);
      PowMono(base, k, |s| - 1);
    }
  }
}
