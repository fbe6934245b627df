/**
 Identifier and length octets told in octets: which ones are written, which ones are read,
 and which ones are refused.
 */
module X690Laws {
  import opened Wrappers
  import opened X690
  import opened BigNat

  /** The largest C `int`. */
  lemma IntMaxIsPower()
    ensures INT_MAX + 1 == Pow(2, 31)
  {
    assert Pow(2, 10) == 1024;
    hide Pow;
    PowAdd(2, 10, 10);
    PowAdd(2, 20, 10);
    PowAdd(2, 30, 1);
    TwoToOne();
  }

  lemma TwoToOne()
    ensures Pow(2, 1) == 2
  {
    assert Pow(2, 0) == 1;
  }

  // ----- what is written -----

  /** The length octets of X.690 section 8.1.3, written out. */
  lemma LengthTable(n: nat)
    requires n <= INT_MAX
    ensures LengthOctets(n)
              == if n < 0x80 then [n]
                 else if n < 0x100 then [0x81, n]
                 else if n < 0x1_0000 then [0x82, n / 0x100, n % 0x100]
                 else if n < 0x100_0000 then [0x83, n / 0x1_0000, n / 0x100 % 0x100, n % 0x100]
                 else [0x84, n / 0x100_0000, n / 0x1_0000 % 0x100, n / 0x100 % 0x100, n % 0x100]
  {
    hide BigEndian;
    if n >= 0x80 {
      BigEndianTable(n);
    }
  }

  lemma BigEndianTable(n: nat)
    requires 0 < n <= INT_MAX
    ensures BigEndian(n)
              == if n < 0x100 then [n]
                 else if n < 0x1_0000 then [n / 0x100, n % 0x100]
                 else if n < 0x100_0000 then [n / 0x1_0000, n / 0x100 % 0x100, n % 0x100]
                 else [n / 0x100_0000, n / 0x1_0000 % 0x100, n / 0x100 % 0x100, n % 0x100]
  {
    var n1 := n / 256;
    var n2 := n1 / 256;
    var n3 := n2 / 256;
    assert n2 == n / 0x1_0000 && n3 == n / 0x100_0000;
    OneMore(n);
    OneMore(n1);
    OneMore(n2);
    OneMore(n3);
  }

  lemma OneMore(n: nat)
    ensures BigEndian(n) == if n == 0 then [] else if n < 256 then [n] else BigEndian(n / 256) + [n % 256]
  {
    if 0 < n < 256 {
      assert BigEndian(n / 256) == [];
    }
  }

  // ----- what is read -----

  /** Big-endian octets are digits in base 256. */
  lemma {:induction false} BigEndianDigits(a: seq<byte>, b: seq<byte>)
    ensures FromBigEndian(a + b) == FromBigEndian(a) * Pow(256, |b|) + FromBigEndian(b)
    ensures forall x: byte :: FromBigEndian([x]) == x
    decreases |b|
  {
    forall x: byte ensures FromBigEndian([x]) == x {
      assert [x][..0] == [];
    }
    if b == [] {
      assert a + b == a;
    } else {
      var c, x := b[..|b| - 1], b[|b| - 1];
      assert (a + b)[..|a + b| - 1] == a + c;
      BigEndianDigits(a, c);
      Regroup(FromBigEndian(a), Pow(256, |c|), FromBigEndian(c), x);
      assert Pow(256, |b|) == 256 * Pow(256, |c|);
    }
  }

  lemma Regroup(n: nat, p: nat, m: nat, x: nat)
    ensures (n * p + m) * 256 + x == n * (256 * p) + (m * 256 + x)
  {
    MulAssoc(n, 256, p);
  }

  function Zeros(n: nat): (s: seq<byte>)
    ensures |s| == n && forall i :: 0 <= i < n ==> s[i] == 0
  {
    seq(n, _ => 0)
  }

  /** Leading zeros in the length octets do not count. */
  lemma {:induction false} LeadingZeros(k: nat, s: seq<byte>)
    ensures FromBigEndian(Zeros(k) + s) == FromBigEndian(s)
    decreases |s| + k
  {
    if s != [] {
      assert (Zeros(k) + s)[..k + |s| - 1] == Zeros(k) + s[..|s| - 1];
      LeadingZeros(k, s[..|s| - 1]);
    } else if k > 0 {
      assert (Zeros(k) + s)[..k - 1] == Zeros(k - 1) + s;
      LeadingZeros(k - 1, s);
    }
  }

  /** `c` length octets, of which the first ones may be zero. */
  function LongForm(ident: byte, c: nat, n: nat): (h: seq<byte>)
    requires |BigEndian(n)| <= c < 127
    ensures |h| == 2 + c
  {
    [ident, 0x80 + c] + Zeros(c - |BigEndian(n)|) + BigEndian(n)
  }

  /** A long form that is not minimal is read like a minimal one. */
  lemma PaddedLength(ident: byte, c: nat, contents: seq<byte>, rest: seq<byte>)
    requires ident % 32 != PRIMITIVE_TAG && 0 < c < 127 && |BigEndian(|contents|)| <= c
    ensures var n := |contents|;
            var s := LongForm(ident, c, n) + contents + rest;
            ReadHeader(s) == Some(Header(false, 2 + c, n)) && s[2 + c..2 + c + n] == contents
  {
    hide FromBigEndian;
    hide BigEndian;
    var n := |contents|;
    var s := LongForm(ident, c, n) + contents + rest;
    assert s[2..2 + c] == Zeros(c - |BigEndian(n)|) + BigEndian(n);
    LeadingZeros(c - |BigEndian(n)|, BigEndian(n));
    BigEndianInverse(n);
  }

  /** Five contents octets behind 30 82 00 05. */
  lemma TwoLengthOctets(contents: seq<byte>)
    requires |contents| == 5
    ensures ReadHeader([0x30, 0x82, 0, 5] + contents) == Some(Header(false, 4, 5))
  {
    var s := [0x30, 0x82, 0, 5] + contents;
    BigEndianDigits([0], [5]);
    assert s[2..4] == [0] + [5];
  }

  /** The definite headers that are read: `k` header octets declare `n` contents octets, which
      are all there. */
  predicate Declares(s: seq<byte>, k: nat, n: nat) {
    && 2 <= k && k + n <= |s| && s[0] % 0x20 != 0x1f
    && if k == 2 then s[1] == n < 0x80
       else s[1] == 0x80 + (k - 2) < 0xff && FromBigEndian(s[2..k]) == n
  }

  lemma HeaderExactly(s: seq<byte>, k: nat, n: nat)
    ensures ReadHeader(s) == Some(Header(false, k, n)) <==> Declares(s, k, n)
  {
    hide FromBigEndian;
  }

  /** The indefinite form: 80 behind a constructed identifier. */
  lemma IndefiniteExactly(s: seq<byte>)
    ensures (ReadHeader(s).Some? && ReadHeader(s).value.indefinite)
              <==> |s| >= 2 && s[1] == 0x80 && s[0] / 0x20 % 2 == 1 && s[0] % 0x20 != 0x1f
  {
    hide FromBigEndian;
  }

  // ----- no shorter header -----

  lemma {:induction false} LeastOctets(s: seq<byte>)
    ensures |BigEndian(FromBigEndian(s))| <= |s|
  {
    if s != [] {
      var a := s[..|s| - 1];
      LeastOctets(a);
      var n := FromBigEndian(s);
      assert n / 256 == FromBigEndian(a);
    }
  }

  /** No header that declares the same length is shorter than the one that is written. */
  lemma ShortestHeader(s: seq<byte>, k: nat, n: nat)
    requires ReadHeader(s) == Some(Header(false, k, n)) && n <= INT_MAX
    ensures |HeaderOctets(s[0], n)| <= k
  {
    HeaderExactly(s, k, n);
    if k > 2 {
      LeastOctets(s[2..k]);
    }
    hide BigEndian;
    hide FromBigEndian;
  }

  // ----- no truncated value -----

  /** A definite value that is cut off anywhere is refused by its header. */
  lemma TruncatedHeader(ident: byte, contents: seq<byte>, k: nat)
    requires |contents| <= INT_MAX && k < |HeaderOctets(ident, |contents|) + contents|
    ensures ReadHeader((HeaderOctets(ident, |contents|) + contents)[..k]) == None
  {
    var n := |contents|;
    var h := HeaderOctets(ident, n);
    var s := (h + contents)[..k];
    if n >= 128 && k >= 2 {
      LongLength(n);
      hide BigEndian;
      hide FromBigEndian;
      hide LengthOctets;
      assert s[1] == 128 + |BigEndian(n)|;
      if k >= |h| {
        assert s[..|h|] == h && h[2..] == BigEndian(n);
        assert s[2..|h|] == s[..|h|][2..];
      }
    }
  }

  /** 133 octets are declared and three are there. */
  lemma DeclaresTooMuch()
    ensures ReadHeader([4, 0x81, 0x85, 1, 2, 3]) == None
  {
    var s: seq<byte> := [4, 0x81, 0x85, 1, 2, 3];
    assert s[2..3] == [0x85];
    BigEndianDigits([], [0x85]);
  }
}
