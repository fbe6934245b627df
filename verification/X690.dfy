/**
 Identifier, length and end-of-contents octets of ITU-T X.690, sections 8.1.2 to 8.1.5,
 for tag numbers below 31. These are the bodies behind `ASN1_put_object`,
 `ASN1_object_size`, `ASN1_get_object` and `ASN1_const_check_infinite_end`, which the
 header only declares.
 */
module X690 {
  import opened Wrappers

  const UNIVERSAL: byte := 0x00
  const CONTEXT_SPECIFIC: byte := 0x80
  const CONSTRUCTED: byte := 0x20
  const PRIMITIVE_TAG: byte := 0x1f
  const SEQUENCE: byte := 16
  const SET: byte := 17

  /** Lengths are C `int`s on the encoding side. */
  const INT_MAX: nat := 0x7fff_ffff

  // ----- identifier octet -----

  predicate IsConstructed(b: byte) {
    b / 32 % 2 == 1
  }

  /** `b & ~V_ASN1_CONSTRUCTED` */
  function WithoutConstructed(b: byte): byte {
    if IsConstructed(b) then b - CONSTRUCTED else b
  }

  /** `b & V_ASN1_CONSTRUCTED` */
  function ConstructedBit(b: byte): byte {
    if IsConstructed(b) then CONSTRUCTED else 0
  }

  /** The masks, on octets as machine words. */
  lemma MasksAreBits(b: bv8, t: bv8)
    requires t < 0x20
    ensures (b & 0xdf) as int == WithoutConstructed(b as int)
    ensures (b & 0x20) as int == ConstructedBit(b as int)
    ensures ((b & 0x20) | t) as int == ConstructedBit(b as int) + t as int
    ensures (0x80 | t | (b & 0x20)) as int == CONTEXT_SPECIFIC + t as int + ConstructedBit(b as int)
  {
  }

  // ----- length octets -----

  function BigEndian(n: nat): seq<byte> {
    if n == 0 then [] else BigEndian(n / 256) + [n % 256]
  }

  function FromBigEndian(s: seq<byte>): nat {
    if s == [] then 0 else FromBigEndian(s[..|s| - 1]) * 256 + s[|s| - 1]
  }

  lemma {:induction false} BigEndianInverse(n: nat)
    ensures FromBigEndian(BigEndian(n)) == n
  {
    if n == 0 {
    } else {
      BigEndianInverse(n / 256);
      var s := BigEndian(n);
      assert s[..|s| - 1] == BigEndian(n / 256);
    }
  }

  lemma BigEndianSize(n: nat)
    requires n <= INT_MAX
    ensures |BigEndian(n)| <= 4
  {
    var n1 := n / 256;
    var n2 := n1 / 256;
    var n3 := n2 / 256;
    assert n3 < 256 && n3 / 256 == 0;
    assert |BigEndian(n3)| <= 1;
    assert |BigEndian(n2)| <= 2;
    assert |BigEndian(n1)| <= 3;
  }

  /** Short form below 128, otherwise the count of octets followed by the minimal big-endian length.
      Only a length that does not fit 127 octets wraps the count; no C `int` reaches that. */
  function LengthOctets(n: nat): seq<byte> {
    if n < 128 then [n] else [128 + |BigEndian(n)| % 128] + BigEndian(n)
  }

  function HeaderOctets(ident: byte, length: nat): seq<byte> {
    [ident] + LengthOctets(length)
  }

  const EOC: seq<byte> := [0, 0]

  /** A complete value: definite form, or indefinite form closed by the end-of-contents octets. */
  function Wrap(ident: byte, indefinite: bool, contents: seq<byte>): (r: seq<byte>)
    ensures |r| >= |contents| + 2 && r[0] == ident
  {
    if indefinite then [ident, 0x80] + contents + EOC
    else HeaderOctets(ident, |contents|) + contents
  }

  /** `ASN1_object_size(1, length, tag)` for a low tag. */
  function ObjectSize(length: nat): (r: nat)
    ensures r == |HeaderOctets(0, length)| + length
  {
    1 + LengthSize(length) + length
  }

  function LengthSize(n: nat): (r: nat)
    ensures r == |LengthOctets(n)|
  {
    if n < 128 then 1 else 1 + OctetCount(n)
  }

  function OctetCount(n: nat): (r: nat)
    ensures r == |BigEndian(n)|
  {
    if n == 0 then 0 else 1 + OctetCount(n / 256)
  }

  // ----- reading a header -----

  datatype Header = Header(indefinite: bool, size: nat, length: nat)

  /** `ASN1_get_object` with `omax == |s|`. `None` stands for a result with bit 0x80 set:
      a header that does not fit, or a definite length that runs past the budget. */
  function ReadHeader(s: seq<byte>): (r: Option<Header>)
    ensures r.Some? ==> 2 <= r.value.size <= r.value.size + r.value.length <= |s|
    ensures r.Some? && r.value.indefinite ==> r.value.size == 2 && r.value.length == 0
  {
    if |s| < 2 || s[0] % 32 == PRIMITIVE_TAG || s[1] == 0xff then None
    else if s[1] == 0x80 then
      if IsConstructed(s[0]) then Some(Header(true, 2, 0)) else None
    else if s[1] < 128 then
      if s[1] <= |s| - 2 then Some(Header(false, 2, s[1])) else None
    else
      var size := 2 + (s[1] - 128);
      if size > |s| then None
      else
        var length := FromBigEndian(s[2..size]);
        if length <= |s| - size then Some(Header(false, size, length)) else None
  }

  /** `ASN1_const_check_infinite_end` with `len == |s|`. */
  predicate AtEoc(s: seq<byte>) {
    |s| >= 2 && s[0] == 0 && s[1] == 0
  }

  lemma LongLength(n: nat)
    requires 128 <= n <= INT_MAX
    ensures var k := |BigEndian(n)|;
            && 1 <= k <= 4 && FromBigEndian(BigEndian(n)) == n
            && LengthOctets(n) == [128 + k] + BigEndian(n)
  {
    hide FromBigEndian;
    BigEndianSize(n);
    BigEndianInverse(n);
    assert BigEndian(n) != [];
    hide BigEndian;
  }

  /** Reading back a definite header recovers exactly the length that was written. */
  lemma ReadWrittenHeader(ident: byte, contents: seq<byte>, rest: seq<byte>)
    requires ident % 32 != PRIMITIVE_TAG
    requires |contents| <= INT_MAX
    ensures var h := HeaderOctets(ident, |contents|);
            ReadHeader(h + contents + rest) == Some(Header(false, |h|, |contents|))
  {
    var n := |contents|;
    var h := HeaderOctets(ident, n);
    var s := h + contents + rest;
    if n >= 128 {
      LongLength(n);
      hide BigEndian;
      hide FromBigEndian;
      hide LengthOctets;
      assert s[0] == ident && s[1] == 128 + |BigEndian(n)|;
      assert s[2..|h|] == BigEndian(n);
    }
  }

  lemma ReadOpen(ident: byte, body: seq<byte>, rest: seq<byte>)
    requires IsConstructed(ident) && ident % 32 != PRIMITIVE_TAG
    ensures var s := Wrap(ident, true, body) + rest;
            && ReadHeader(s) == Some(Header(true, 2, 0))
            && s[0] == ident && s[2..] == body + (EOC + rest)
  {
  }

  /** The contents octets can be cut out of a written value again, in either form. */
  lemma ReadWrapped(ident: byte, indefinite: bool, contents: seq<byte>, rest: seq<byte>)
    requires ident % 32 != PRIMITIVE_TAG
    requires indefinite ==> IsConstructed(ident)
    requires |Wrap(ident, indefinite, contents)| <= INT_MAX
    ensures var w := Wrap(ident, indefinite, contents);
            var s := w + rest;
            && ReadHeader(s).Some?
            && var h := ReadHeader(s).value;
            && h.indefinite == indefinite
            && s[0] == ident
            && (indefinite ==> s[2..] == contents + (EOC + rest))
            && (!indefinite ==> s[h.size..h.size + h.length] == contents
                                && h.size + h.length == |w| && h.length == |contents|)
  {
    var w := Wrap(ident, indefinite, contents);
    var s := w + rest;
    if indefinite {
      assert s[0] == ident && s[1] == 0x80;
      assert s[2..] == contents + (EOC + rest);
    } else {
      ReadWrittenHeader(ident, contents, rest);
      assert s == HeaderOctets(ident, |contents|) + contents + rest;
    }
  }
}
