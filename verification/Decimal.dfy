/**
 Decimal conversion by chunks of BN_DEC_NUM digits: the loops that BN_DEC_CONV, BN_DEC_FMT1
 and BN_DEC_FMT2 are for. The numbers are the magnitudes; the word type bounds a chunk.
 */
module Decimal {
  import opened BigNat
  import opened Bignum

  /** A digit is its numeric value; the character is '0' plus it. */
  type digit = d: nat | d < 10

  /** The decimal numeral without leading zeros: what "%lu" prints. */
  function Dec(n: nat): (s: seq<digit>)
    ensures s != [] && (n > 0 || |s| > 1 ==> s[0] != 0)
  {
    if n < 10 then [n] else Dec(n / 10) + [n % 10]
  }

  /** Exactly `k` digits: what "%019lu" prints for a chunk. */
  function Pad(n: nat, k: nat): (s: seq<digit>)
    ensures |s| == k
  {
    if k == 0 then [] else Pad(n / 10, k - 1) + [n % 10]
  }

  /** The number a numeral denotes. */
  function Number(s: seq<digit>): nat {
    if s == [] then 0 else Number(s[..|s| - 1]) * 10 + s[|s| - 1]
  }

  lemma NumberAppend(s: seq<digit>, d: digit)
    ensures Number(s + [d]) == Number(s) * 10 + d
  {
    assert (s + [d])[..|s|] == s;
  }

  /** A numeral denotes the number it was written for. */
  lemma {:induction false} NumberOfDec(n: nat)
    ensures Number(Dec(n)) == n
  {
    if n < 10 {
      assert Number([n][..0]) == 0;
    } else {
      NumberOfDec(n / 10);
      NumberAppend(Dec(n / 10), n % 10);
    }
  }

  /** The digits are those of the number, the most significant first. */
  lemma {:induction false} DigitOfDec(n: nat, i: nat)
    requires i < |Dec(n)|
    ensures Dec(n)[i] == n / Pow(10, |Dec(n)| - 1 - i) % 10
  {
    if n < 10 {
      assert n / Pow(10, 0) == n;
    } else if i == |Dec(n)| - 1 {
      assert n / Pow(10, 0) == n;
    } else {
      DigitOfDec(n / 10, i);
      TenAndPow(n, |Dec(n / 10)| - 1 - i);
    }
  }

  /** BN_DEC_NUM is the largest number of digits that always fit a word. */
  lemma DecNumLargest(k: nat, ws: WordSize)
    ensures Pow(10, k) <= ws.Base() <==> k <= ws.DecNum()
  {
    ConvIsPower(ws);
    var num := ws.DecNum();
    assert Pow(10, num + 1) == 10 * Pow(10, num);
    hide Pow;
    if k <= num {
      PowMono(10, k, num);
    } else {
      PowMono(10, num + 1, k);
    }
  }

  // ----- chunks -----

  lemma ConvIsPower(ws: WordSize)
    ensures ws.DecConv() == Pow(10, ws.DecNum())
  {
    assert Pow(10, 3) == 1000;
    assert Pow(10, 6) == 1_000_000 by { PowAdd(10, 3, 3); }
    assert Pow(10, 9) == 1_000_000_000 by { PowAdd(10, 6, 3); }
    assert Pow(10, 18) == 1_000_000_000_000_000_000 by { PowAdd(10, 9, 9); }
    assert Pow(10, 19) == 10_000_000_000_000_000_000 by { PowAdd(10, 18, 1); }
  }

  /** Dividing by ten and cutting off k digits, in either order. */
  lemma TenAndPow(n: nat, k: nat)
    ensures n / 10 / Pow(10, k) == n / Pow(10, k + 1)
    ensures n % Pow(10, k + 1) / 10 == n / 10 % Pow(10, k)
    ensures n % Pow(10, k + 1) % 10 == n % 10
  {
    assert Pow(10, k + 1) == 10 * Pow(10, k);
    hide Pow;
    var p := Pow(10, k);
    var q, r, d := n / 10 / p, n / 10 % p, n % 10;
    TenTimes(p, q, r, d);
    DivModUnique(n, 10 * p, q, 10 * r + d);
    DivModUnique(10 * r + d, 10, r, d);
  }

  lemma TenTimes(p: nat, q: nat, r: nat, d: nat)
    requires r < p && d < 10
    ensures 10 * (p * q + r) + d == 10 * p * q + (10 * r + d)
    ensures 10 * r + d < 10 * p
  {
    MulAssoc(10, p, q);
  }

  /** Printing the part above k digits and then exactly k digits prints the number. */
  lemma {:induction false} DecSplit(n: nat, k: nat)
    requires n >= Pow(10, k)
    ensures n / Pow(10, k) > 0
    ensures Dec(n) == Dec(n / Pow(10, k)) + Pad(n % Pow(10, k), k)
    decreases k
  {
    if k == 0 {
      assert n / 1 == n;
    } else {
      var p := Pow(10, k - 1);
      assert Pow(10, k) == 10 * p;
      TenAndPow(n, k - 1);
      DecSplit(n / 10, k - 1);
      assert Dec(n) == Dec(n / 10) + [n % 10];
      assert Pad(n % Pow(10, k), k) == Pad(n % Pow(10, k) / 10, k - 1) + [n % Pow(10, k) % 10];
    }
  }

  /** The printed form of chunks, least significant first: the last one with FMT1, the others
      with FMT2. */
  function Print(chunks: seq<nat>, num: nat): seq<digit>
    requires chunks != []
  {
    if |chunks| == 1 then Dec(chunks[0])
    else Print(chunks[1..], num) + Pad(chunks[0], num)
  }

  lemma {:induction false} PrintIsDec(n: nat, ws: WordSize)
    requires n > 0
    ensures FromNat(n, ws.DecConv()) != []
    ensures Print(FromNat(n, ws.DecConv()), ws.DecNum()) == Dec(n)
    decreases n
  {
    var conv, num := ws.DecConv(), ws.DecNum();
    ConvIsPower(ws);
    Smaller(n, conv);
    if n >= conv {
      hide WordSize.DecConv;
      hide WordSize.DecNum;
      hide Pow;
      DecSplit(n, num);
      PrintIsDec(n / conv, ws);
    } else {
      DivModUnique(n, conv, 0, n);
    }
  }

  /** Divide by BN_DEC_CONV until nothing is left; every chunk is a word. */
  method Split(n: nat, conv: nat) returns (lp: seq<nat>)
    requires conv >= 2
    ensures lp == FromNat(n, conv)
  {
    hide FromNat;
    var t: nat := n;
    lp := [];
    while t > 0
      invariant FromNat(n, conv) == lp + FromNat(t, conv)
      decreases t
    {
      Smaller(t, conv);
      NextChunk(t, conv);
      assert lp + ([t % conv] + FromNat(t / conv, conv)) == lp + [t % conv] + FromNat(t / conv, conv);
      lp := lp + [t % conv];
      t := t / conv;
    }
    NextChunk(0, conv);
  }

  lemma NextChunk(t: nat, conv: nat)
    requires conv >= 2
    ensures if t == 0 then FromNat(t, conv) == []
            else (Smaller(t, conv); FromNat(t, conv) == [t % conv] + FromNat(t / conv, conv))
  {
  }

  method PrintChunks(lp: seq<nat>, num: nat) returns (s: seq<digit>)
    requires lp != []
    ensures s == Print(lp, num)
  {
    var i := |lp| - 1;
    s := Dec(lp[i]);
    while i > 0
      invariant 0 <= i < |lp|
      invariant s == Print(lp[i..], num)
    {
      i := i - 1;
      assert lp[i..][1..] == lp[i + 1..];
      s := s + Pad(lp[i], num);
    }
    assert lp[0..] == lp;
  }

  /** Number to text. */
  method Bn2Dec(n: nat, ws: WordSize) returns (s: seq<digit>)
    ensures s == Dec(n)
  {
    if n == 0 {
      return [0];
    }
    PrintIsDec(n, ws);
    var lp := Split(n, ws.DecConv());
    s := PrintChunks(lp, ws.DecNum());
  }

  /** Every chunk of a split, and every chunk gathered while reading, fits one word. */
  lemma ChunkFits(l: nat, ws: WordSize)
    requires l < Pow(10, ws.DecNum())
    ensures l < ws.DecConv() < ws.Base()
  {
    ConvIsPower(ws);
  }

  /** Text to number: digits are gathered into a word and added in whenever the number of
      digits left is a multiple of BN_DEC_NUM, so that only the first chunk may be short. */
  method Dec2Bn(s: seq<digit>, ws: WordSize) returns (ret: nat)
    ensures ret == Number(s)
  {
    ConvIsPower(ws);
    ret := Gather(s, ws.DecNum(), ws.DecConv());
  }

  method Gather(s: seq<digit>, num: nat, conv: nat) returns (ret: nat)
    requires num > 0 && conv == Pow(10, num)
    ensures ret == Number(s)
  {
    hide Pow;
    hide Joined;
    hide Number;
    var j := num - |s| % num;
    if j == num {
      j := 0;
    }
    ghost var m := Aligned(|s|, num, j);
    var l: nat := 0;
    var i := 0;
    ret := 0;
    Nothing(j);
    assert s[..0] == [];
    while i < |s|
      invariant 0 <= i <= |s| && 0 <= j < num
      invariant |s| - i + j == num * m
      invariant l < Pow(10, j) && (j == 0 ==> l == 0)
      invariant Joined(ret, j, l) == Number(s[..i])
    {
      Step(ret, j, l, s[i]);
      assert s[..i + 1] == s[..i] + [s[i]];
      NumberAppend(s[..i], s[i]);
      l := l * 10 + s[i];
      j := j + 1;
      i := i + 1;
      if j == num {
        Flush(ret, l, num);
        OneLess(num, m);
        ret := ret * conv + l;
        l, j, m := 0, 0, m - 1;
      }
    }
    assert s[..i] == s;
    NoneLeft(num, m, j);
    Nothing(0);
    Alone(ret);
  }

  /** With `j` as the starting count, the digits left end on a chunk boundary. */
  lemma Aligned(len: nat, num: nat, j: nat) returns (m: int)
    requires num > 0 && j == (if len % num == 0 then 0 else num - len % num)
    ensures len + j == num * m
  {
    m := len / num + (if len % num == 0 then 0 else 1);
    Distribute(num, len / num, 1);
  }

  lemma OneLess(num: int, m: int)
    ensures num * (m - 1) == num * m - num
  {
  }

  lemma NoneLeft(num: nat, m: int, j: nat)
    requires j < num && j == num * m
    ensures j == 0
  {
    if m > 0 {
      MulMono(num, 1, m);
    }
  }

  lemma Nothing(j: nat)
    ensures Joined(0, j, 0) == 0 && Number([]) == 0 && 0 < Pow(10, j) && Pow(10, 0) == 1
  {
  }

  lemma Alone(ret: nat)
    ensures Joined(ret, 0, 0) == ret
  {
  }

  /** Adding the gathered chunk in leaves nothing pending. */
  lemma Flush(ret: nat, l: nat, num: nat)
    ensures (Product(ret, Pow(10, num)); Joined(ret * Pow(10, num) + l, 0, 0) == Joined(ret, num, l))
  {
  }

  /** The number read so far: `ret` followed by the `j` digits of `l`. */
  function Joined(ret: nat, j: nat, l: nat): nat {
    Product(ret, Pow(10, j));
    ret * Pow(10, j) + l
  }

  lemma Step(ret: nat, j: nat, l: nat, d: digit)
    requires l < Pow(10, j)
    ensures Joined(ret, j + 1, l * 10 + d) == Joined(ret, j, l) * 10 + d
    ensures l * 10 + d < Pow(10, j + 1)
  {
    var p := Pow(10, j);
    assert Pow(10, j + 1) == 10 * p;
    assert ret * (10 * p) == ret * p * 10;
  }
}
