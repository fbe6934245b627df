/**
 The representation discipline of `struct bignum_st`: an array of words of which the first
 `top` count, normalised so that the last one that counts is not zero.
 */
module Bignum {
  import opened BigNat

  /** THIRTY_TWO_BIT, or SIXTY_FOUR_BIT and SIXTY_FOUR_BIT_LONG. */
  datatype WordSize = ThirtyTwoBit | SixtyFourBit {
    function Bits(): nat {
      if ThirtyTwoBit? then 32 else 64
    }

    /** One more than BN_MASK2. */
    function Base(): nat {
      if ThirtyTwoBit? then 0x1_0000_0000 else 0x1_0000_0000_0000_0000
    }

    /** BN_DEC_NUM */
    function DecNum(): nat {
      if ThirtyTwoBit? then 9 else 19
    }

    /** BN_DEC_CONV */
    function DecConv(): nat {
      if ThirtyTwoBit? then 1_000_000_000 else 10_000_000_000_000_000_000
    }

    /** A word whose bytes are all `fill`, as memset leaves it. */
    function Filled(fill: nat): (w: nat)
      requires fill < 256
      ensures w < Base()
    {
      if ThirtyTwoBit? then fill * 0x0101_0101 else fill * 0x0101_0101_0101_0101
    }
  }

  /** How the header was compiled: BN_DEBUG and BN_DEBUG_RAND. */
  datatype Build = Release | Debug | DebugRand

  /** The largest word is the all-ones pattern BN_MASK2. */
  lemma MaskIsLargest()
    ensures ThirtyTwoBit.Bits() == 32 && ThirtyTwoBit.Base() - 1 == (!(0 as bv32)) as nat == 0xffff_ffff
    ensures SixtyFourBit.Bits() == 64 && SixtyFourBit.Base() - 1 == (!(0 as bv64)) as nat == 0xffff_ffff_ffff_ffff
  {
  }

  /** The filled word has the same byte at every place. */
  lemma FilledBytes(fill: nat, ws: WordSize)
    requires fill < 256
    ensures ws.Filled(fill) == Value(seq(ws.Bits() / 8, _ => fill), 256)
  {
    Repeated(fill, 2);
    Repeated(fill, 4);
    Repeated(fill, 6);
    Repeated(fill, 8);
  }

  lemma Repeated(w: nat, n: nat)
    requires n >= 2
    ensures Value(seq(n, _ => w), 256) == w + 256 * w + 65536 * Value(seq(n - 2, _ => w), 256)
  {
    assert seq(n, _ => w) == [w] + ([w] + seq(n - 2, _ => w));
    ValueCons(w, [w] + seq(n - 2, _ => w), 256);
    ValueCons(w, seq(n - 2, _ => w), 256);
  }

  // ----- predicates, on the words below `top` -----

  predicate AbsIsWord(ds: seq<nat>, w: nat) {
    (|ds| == 1 && ds[0] == w) || (w == 0 && ds == [])
  }

  predicate IsZero(ds: seq<nat>) {
    ds == []
  }

  predicate IsOne(ds: seq<nat>, neg: bool) {
    AbsIsWord(ds, 1) && !neg
  }

  predicate IsWord(ds: seq<nat>, neg: bool, w: nat) {
    AbsIsWord(ds, w) && (w == 0 || !neg)
  }

  /** `d[0] & 1` is the remainder by two. */
  predicate IsOdd(ds: seq<nat>) {
    ds != [] && ds[0] % 2 == 1
  }

  function Signed(ds: seq<nat>, neg: bool, ws: WordSize): int {
    var v: int := Value(ds, ws.Base());
    if neg then -v else v
  }

  lemma WordValue(ds: seq<nat>, base: nat)
    requires base >= 2 && Digits(ds, base)
    ensures ds == [] ==> Value(ds, base) == 0
    ensures |ds| == 1 ==> Value(ds, base) == ds[0]
    ensures |ds| >= 2 && Normal(ds) ==> Value(ds, base) >= base
  {
    if |ds| == 1 {
      assert Value(ds[1..], base) == 0;
    } else if |ds| >= 2 && Normal(ds) {
      NormalBound(ds, base);
      assert Pow(base, 1) == base * Pow(base, 0) == base;
      PowMono(base, 1, |ds| - 1);
    }
  }

  /** On a normalised number the predicates decide the integer it stands for. */
  lemma {:induction false} PredicatesDecide(ds: seq<nat>, neg: bool, w: nat, ws: WordSize)
    requires Digits(ds, ws.Base()) && Normal(ds) && w < ws.Base()
    ensures IsZero(ds) <==> Signed(ds, neg, ws) == 0
    ensures AbsIsWord(ds, w) <==> Value(ds, ws.Base()) == w
    ensures IsWord(ds, neg, w) <==> Signed(ds, neg, ws) == w
    ensures IsOne(ds, neg) <==> Signed(ds, neg, ws) == 1
    ensures IsOdd(ds) <==> Signed(ds, neg, ws) % 2 == 1
  {
    WordValue(ds, ws.Base());
    if ds != [] {
      NormalBound(ds, ws.Base());
      LowBit(ds, ws);
    }
    var v: int := Value(ds, ws.Base());
    assert (-v) % 2 == v % 2;
  }

  lemma LowBit(ds: seq<nat>, ws: WordSize)
    requires ds != []
    ensures Value(ds, ws.Base()) % 2 == ds[0] % 2
  {
    var half := ws.Base() / 2;
    assert ws.Base() == 2 * half;
    EvenBase(ds[0], half, Value(ds[1..], ws.Base()));
  }

  lemma EvenBase(x: nat, half: nat, v: nat)
    ensures (x + 2 * half * v) % 2 == x % 2
  {
    MulAssoc(2, half, v);
    assert x + 2 * half * v == x + 2 * (half * v);
  }

  /** Without normalisation BN_abs_is_word is right for every word exactly when at most one
      word counts or the magnitude does not fit a word. */
  lemma AbsIsWordExactly(ds: seq<nat>, ws: WordSize)
    requires Digits(ds, ws.Base())
    ensures (forall w: nat | w < ws.Base() :: AbsIsWord(ds, w) <==> Value(ds, ws.Base()) == w)
              <==> |ds| <= 1 || Value(ds, ws.Base()) >= ws.Base()
  {
    WordValue(ds, ws.Base());
    var v := Value(ds, ws.Base());
    if |ds| >= 2 && v < ws.Base() {
      assert !AbsIsWord(ds, v);
    }
  }

  /** A number for which it is wrong: one, with a leading zero word. */
  lemma AbsIsWordFails(ws: WordSize)
    ensures var ds := [1, 0];
            Digits(ds, ws.Base()) && Value(ds, ws.Base()) == 1 && !AbsIsWord(ds, 1)
  {
    assert [1, 0][1..] == [0] && [0][1..] == [];
    assert Value([0], ws.Base()) == 0;
  }

  // ----- the structure -----

  class BigNum {
    const ws: WordSize
    const build: Build
    var d: array<nat>  // dmax is its length
    var top: nat
    var neg: bool

    ghost predicate Valid()
      reads this, d
    {
      top <= d.Length && Digits(d[..], ws.Base())
    }

    /** The words that count. */
    ghost function Words(): (ds: seq<nat>)
      reads this, d
      requires Valid()
      ensures Digits(ds, ws.Base())
    {
      d[..top]
    }

    ghost function Int(): int
      reads this, d
      requires Valid()
    {
      Signed(Words(), neg, ws)
    }

    constructor (ws: WordSize, build: Build, d: array<nat>, top: nat, neg: bool)
      requires top <= d.Length && Digits(d[..], ws.Base())
      ensures Valid() && this.ws == ws && this.build == build && this.d == d && this.top == top && this.neg == neg
    {
      this.ws, this.build, this.d, this.top, this.neg := ws, build, d, top, neg;
    }

    /** `bn_pollute`: with BN_DEBUG_RAND every unused word gets the same random byte. */
    method Pollute(fill: nat)
      requires Valid() && fill < 256
      modifies d
      ensures Valid() && Words() == old(Words())
      ensures build != DebugRand ==> d[..] == old(d[..])
      ensures build == DebugRand ==> forall i :: top <= i < d.Length ==> d[i] == ws.Filled(fill)
    {
      if build == DebugRand && top < d.Length {
        var i := top;
        while i < d.Length
          invariant top <= i <= d.Length
          invariant d[..top] == old(d[..top])
          invariant forall k :: top <= k < i ==> d[k] == ws.Filled(fill)
          invariant Digits(d[..], ws.Base())
        {
          d[i] := ws.Filled(fill);
          i := i + 1;
        }
      }
    }

    /** `bn_check_top`, called where its assertion holds; a release build does nothing. */
    method CheckTop(fill: nat)
      requires Valid() && fill < 256
      requires build != Release ==> Normal(Words())
      modifies d
      ensures Valid() && Words() == old(Words())
      ensures build != DebugRand ==> d[..] == old(d[..])
    {
      if build != Release {
        assert top == 0 || d[top - 1] != 0 by {
          assert top > 0 ==> Words()[top - 1] == d[top - 1];
        }
        Pollute(fill);
      }
    }

    /** `bn_correct_top`: `ftl` walks down from `&d[top-1]`. */
    method CorrectTop(fill: nat)
      requires Valid() && fill < 256
      modifies this`top, d
      ensures Valid() && Words() == Trim(old(Words()))
      ensures Int() == old(Int())
      ensures forall e: seq<nat> ::
                Digits(e, ws.Base()) && Value(e, ws.Base()) == Value(Words(), ws.Base()) ==> top <= |e|
      ensures build != DebugRand ==> d[..] == old(d[..])
    {
      ghost var ds := Words();
      var tmpTop := top;
      if tmpTop > 0 {
        var ftl := tmpTop - 1;
        while tmpTop > 0
          invariant 0 <= tmpTop <= top && ftl == tmpTop - 1
          invariant Trim(d[..tmpTop]) == Trim(ds)
          decreases tmpTop
        {
          assert d[..tmpTop][..tmpTop - 1] == d[..tmpTop - 1];
          if d[ftl] != 0 {
            break;
          }
          ftl := ftl - 1;
          tmpTop := tmpTop - 1;
        }
        top := tmpTop;
      }
      assert Words() == Trim(ds);
      TrimIsBest(ds, ws.Base());
      Pollute(fill);
    }

    /** `bn_fix_top`: correct in a release build, check in a debug build. */
    method FixTop(fill: nat)
      requires Valid() && fill < 256
      requires build != Release ==> Normal(Words())
      modifies this`top, d
      ensures Valid() && Words() == Trim(old(Words()))
      ensures Int() == old(Int())
    {
      TrimNormal(Words());
      if build == Release {
        CorrectTop(fill);
      } else {
        CheckTop(fill);
      }
    }

    /** `BN_zero_ex` */
    method ZeroEx()
      requires Valid()
      modifies this`top, this`neg
      ensures Valid() && IsZero(Words()) && Int() == 0 && !neg
      ensures Normal(Words())
    {
      top, neg := 0, false;
    }

    /** `bn_wexpand` over `bn_expand2`, which is declared to provide at least `words` words. */
    method Wexpand(words: nat)
      requires Valid()
      modifies this`d
      ensures Valid() && Words() == old(Words()) && d.Length >= words
      ensures old(d.Length) >= words ==> d == old(d)
      ensures old(d.Length) < words ==> fresh(d)
    {
      if words > d.Length {
        var e := new nat[words];
        var i := 0;
        while i < words
          invariant 0 <= i <= words
          invariant fresh(e) && e != d
          invariant forall k :: 0 <= k < i ==> e[k] == if k < d.Length then d[k] else 0
          invariant d[..] == old(d[..])
        {
          e[i] := if i < d.Length then d[i] else 0;
          i := i + 1;
        }
        forall k | 0 <= k < e.Length ensures e[..][k] < ws.Base() {
          assert k < d.Length ==> d[..][k] < ws.Base();
        }
        assert e[..top] == d[..top];
        d := e;
      }
    }

    /** `bn_expand(a, bits)`: afterwards every magnitude below 2^bits has its normal form in
        the array, and the array is kept exactly when that was so before. */
    method Expand(bits: nat)
      requires Valid()
      modifies this`d
      ensures Valid() && Words() == old(Words())
      ensures HoldsAll(d.Length, bits, ws)
      ensures d == old(d) <==> HoldsAll(old(d.Length), bits, ws)
    {
      var words := (bits + ws.Bits() - 1) / ws.Bits();
      Capacity(d.Length, bits, ws);
      Wexpand(words);
      Capacity(d.Length, bits, ws);
    }
  }

  lemma TrimIsBest(ds: seq<nat>, base: nat)
    requires base >= 2 && Digits(ds, base)
    ensures Value(Trim(ds), base) == Value(ds, base)
    ensures forall e: seq<nat> :: Digits(e, base) && Value(e, base) == Value(ds, base) ==> |Trim(ds)| <= |e|
  {
    TrimValue(ds, base);
    forall e: seq<nat> | Digits(e, base) && Value(e, base) == Value(ds, base) ensures |Trim(ds)| <= |e| {
      NormalLeast(Trim(ds), e, base);
    }
  }

  /** Correcting twice is correcting once. */
  lemma TrimIdempotent(ds: seq<nat>)
    ensures Trim(Trim(ds)) == Trim(ds)
  {
    TrimNormal(Trim(ds));
  }

  // ----- capacity -----

  /** Every magnitude below 2^bits has a normal form of at most `dmax` words. */
  ghost predicate HoldsAll(dmax: nat, bits: nat, ws: WordSize) {
    forall n: nat :: n < Pow(2, bits) ==> |FromNat(n, ws.Base())| <= dmax
  }

  lemma TwoToEight()
    ensures Pow(2, 8) == 256
  {
    assert Pow(2, 4) == 16;
  }

  lemma BaseIsPower(ws: WordSize)
    ensures ws.Base() == Pow(2, ws.Bits())
  {
    hide Pow;
    TwoToEight();
    PowAdd(2, 8, 8);
    PowAdd(2, 16, 16);
    PowAdd(2, 32, 32);
  }

  lemma Capacity(dmax: nat, bits: nat, ws: WordSize)
    ensures HoldsAll(dmax, bits, ws) <==> (bits + ws.Bits() - 1) / ws.Bits() <= dmax
  {
    BaseIsPower(ws);
    PowPow(2, ws.Bits(), dmax);
    var room := ws.Bits() * dmax;
    if bits <= room {
      forall n: nat | n < Pow(2, bits) ensures |FromNat(n, ws.Base())| <= dmax {
        PowMono(2, bits, room);
        FromNatFits(n, ws.Base(), dmax);
      }
    } else {
      PowStrict(2, room, bits);
      var n := Pow(2, room);
      FromNatFits(n, ws.Base(), dmax);
      assert !(|FromNat(n, ws.Base())| <= dmax);
    }
  }

  /** `BN_num_bits`: the number of significant bits. */
  function NumBits(n: nat): nat {
    if n == 0 then 0 else 1 + NumBits(n / 2)
  }

  lemma {:induction false} NumBitsLeast(n: nat)
    ensures n < Pow(2, NumBits(n))
    ensures n > 0 ==> Pow(2, NumBits(n) - 1) <= n
  {
    if n > 0 {
      NumBitsLeast(n / 2);
    }
  }

  /** `BN_num_bytes` */
  function NumBytes(n: nat): nat {
    (NumBits(n) + 7) / 8
  }

  /** `BN_num_bytes` is the least number of bytes that hold the magnitude. */
  lemma NumBytesLeast(n: nat, k: nat)
    ensures n < Pow(256, k) <==> NumBytes(n) <= k
  {
    NumBitsLeast(n);
    assert Pow(2, 8) == 256;
    PowPow(2, 8, k);
    if NumBits(n) <= 8 * k {
      PowMono(2, NumBits(n), 8 * k);
    } else {
      PowMono(2, 8 * k, NumBits(n) - 1);
    }
  }
}
