/**
 Base64 text told by the table of RFC 4648 section 4: which characters stand for which bits,
 where the padding and the line ends are, and which texts can be decoded.
 */
module EvpAlphabet {
  import opened Wrappers
  import opened X690
  import opened X690Laws
  import opened EvpBase64
  import opened EvpDecode

  const UPPER: string := "ABCDEFGHIJKLMNOPQRSTUVWXYZ"
  const LOWER: string := "abcdefghijklmnopqrstuvwxyz"
  const NUMERALS: string := "0123456789"
  const ALPHABET: string := UPPER + LOWER + NUMERALS + "+/"

  lemma Letters(i: nat)
    requires i < 26
    ensures |UPPER| == |LOWER| == 26
    ensures UPPER[i] == (65 + i) as char && LOWER[i] == (97 + i) as char
  {
    var upper, lower := "ABCDEFGHIJKLMNOPQRSTUVWXYZ", "abcdefghijklmnopqrstuvwxyz";
    assert upper[i] == (65 + i) as char && lower[i] == (97 + i) as char;
  }

  lemma Numerals(i: nat)
    requires i < 10
    ensures |NUMERALS| == 10 && NUMERALS[i] == (48 + i) as char
  {
    var numerals := "0123456789";
    assert numerals[i] == (48 + i) as char;
  }

  lemma TableAt(i: sextet)
    ensures |ALPHABET| == 64
    ensures ALPHABET[i] == if i < 26 then (65 + i) as char
                           else if i < 52 then (71 + i) as char
                           else if i < 62 then (i - 4) as char
                           else if i == 62 then '+' else '/'
  {
    FourParts(UPPER, LOWER, NUMERALS, "+/", i);
    if i < 26 {
      Letters(i);
    } else if i < 52 {
      Letters(i - 26);
    } else if i < 62 {
      Numerals(i - 52);
    }
  }

  lemma FourParts(a: string, b: string, c: string, d: string, i: sextet)
    requires |a| == |b| == 26 && |c| == 10 && |d| == 2
    ensures var t := a + b + c + d;
            && |t| == 64
            && t[i] == if i < 26 then a[i] else if i < 52 then b[i - 26] else if i < 62 then c[i - 52] else d[i - 62]
  {
  }

  /** The table is used for writing. */
  lemma SymbolIsTable(i: sextet)
    ensures |ALPHABET| == 64 && Symbol(i) == ALPHABET[i]
  {
    TableAt(i);
  }

  predicate Listed(c: char) {
    c in ALPHABET
  }

  /** The table is used for reading, and nothing else is read. */
  lemma SextetIsTable(c: char)
    ensures |ALPHABET| == 64 && (Sextet(c).Some? <==> c in ALPHABET)
    ensures Sextet(c).Some? ==> ALPHABET[Sextet(c).value] == c
  {
    TableAt(0);
    if Sextet(c).Some? {
      SymbolIsTable(Sextet(c).value);
      assert Symbol(Sextet(c).value) == c;
    }
    if c in ALPHABET {
      var i :| 0 <= i < |ALPHABET| && ALPHABET[i] == c;
      SymbolIsTable(i);
      SymbolSextet(i);
    }
  }

  lemma ListedExactly(c: char)
    ensures Sextet(c).Some? <==> Listed(c)
  {
    SextetIsTable(c);
  }

  // ----- the bits of a text -----

  function Index(c: char): (i: sextet) {
    if Sextet(c).Some? then Sextet(c).value else 0
  }

  /** The indices of the characters as a number in base 64; padding counts as zero. */
  function Number(t: string): nat {
    if t == [] then 0 else Number(t[..|t| - 1]) * 64 + Index(t[|t| - 1])
  }

  lemma NumberOfFour(t: string, q: string)
    requires |q| == 4
    ensures Number(t + q) == Number(t) * 0x100_0000 + FourIndices(q[0], q[1], q[2], q[3])
  {
    hide Index;
    hide Number;
    Next(t, q, 0);
    Next(t, q, 1);
    Next(t, q, 2);
    Next(t, q, 3);
    assert t + q[..0] == t && q[..4] == q;
  }

  function FourIndices(c: char, d: char, e: char, f: char): nat {
    Index(c) * 0x4_0000 + Index(d) * 0x1000 + Index(e) * 64 + Index(f)
  }

  /** A group by itself, and behind other groups. */
  lemma NumberBehind(t: string, q: string)
    requires |q| == 4
    ensures Number(q) == FourIndices(q[0], q[1], q[2], q[3])
    ensures Number(t + q) == Number(t) * 0x100_0000 + Number(q)
  {
    hide FourIndices;
    assert [] + q == q && Number([]) == 0;
    hide Number;
    NumberOfFour([], q);
    NumberOfFour(t, q);
  }

  lemma Next(t: string, q: string, i: nat)
    requires i < |q|
    ensures Number(t + q[..i + 1]) == Number(t + q[..i]) * 64 + Index(q[i])
  {
    hide Index;
    var u := t + q[..i + 1];
    assert u[..|u| - 1] == t + q[..i];
  }

  lemma NumberOfThree(s: seq<byte>, x: byte, y: byte, z: byte)
    ensures FromBigEndian(s + [x, y, z]) == FromBigEndian(s) * 0x100_0000 + x * 0x1_0000 + y * 0x100 + z
  {
    hide FromBigEndian;
    OneOctetMore(s, x);
    OneOctetMore(s + [x], y);
    OneOctetMore(s + [x] + [y], z);
    assert s + [x, y, z] == s + [x] + [y] + [z];
  }

  lemma OctetsBehind(s: seq<byte>, x: byte, y: byte, z: byte)
    ensures FromBigEndian([x, y, z]) == x * 0x1_0000 + y * 0x100 + z
    ensures FromBigEndian(s + [x, y, z]) == FromBigEndian(s) * 0x100_0000 + FromBigEndian([x, y, z])
  {
    assert [] + [x, y, z] == [x, y, z] && FromBigEndian([]) == 0;
    hide FromBigEndian;
    NumberOfThree([], x, y, z);
    NumberOfThree(s, x, y, z);
  }

  lemma OneOctetMore(s: seq<byte>, x: byte)
    ensures FromBigEndian(s + [x]) == FromBigEndian(s) * 256 + x
  {
    assert (s + [x])[..|s|] == s;
  }

  // ----- encoding -----

  lemma FullGroup(x: byte, y: byte, z: byte)
    ensures var q := EncodeBlock([x, y, z]);
            && |q| == 4 && '=' !in q
            && FourIndices(q[0], q[1], q[2], q[3]) == x * 0x1_0000 + y * 0x100 + z
  {
    assert [x, y, z][3..] == [] && EncodeBlock([]) == [];
    assert EncodeBlock([x, y, z]) == Quad(x, y, z);
    SymbolSextet(x / 4);
    SymbolSextet(x % 4 * 16 + y / 16);
    SymbolSextet(y % 16 * 4 + z / 64);
    SymbolSextet(z % 64);
    hide Symbol;
    hide Sextet;
    hide EncodeBlock;
  }

  lemma TwoOctetGroup(x: byte, y: byte)
    ensures var q := EncodeBlock([x, y]);
            && |q| == 4 && '=' !in q[..3] && q[3] == '='
            && FourIndices(q[0], q[1], q[2], q[3]) == x * 0x1_0000 + y * 0x100
  {
    NoPadding();
    SymbolSextet(x / 4);
    SymbolSextet(x % 4 * 16 + y / 16);
    SymbolSextet(y % 16 * 4);
    hide Symbol;
    hide Sextet;
  }

  lemma OneOctetGroup(x: byte)
    ensures var q := EncodeBlock([x]);
            && |q| == 4 && '=' !in q[..2] && q[2] == q[3] == '='
            && FourIndices(q[0], q[1], q[2], q[3]) == x * 0x1_0000
  {
    NoPadding();
    SymbolSextet(x / 4);
    SymbolSextet(x % 4 * 16);
    hide Symbol;
    hide Sextet;
  }

  /** The padding of the last group. */
  function Missing(n: nat): (r: nat)
    ensures r <= 2 && (n + r) % 3 == 0
  {
    (3 - n % 3) % 3
  }

  /** One group at the end of a text. */
  lemma LastGroup(s: seq<byte>)
    requires 0 < |s| <= 3
    ensures var m := Missing(|s|);
            var q := EncodeBlock(s);
            && |q| == 4
            && Number(q) == FromBigEndian(s + Zeros(m))
            && forall i :: 0 <= i < 4 ==> (q[i] == '=' <==> i >= 4 - m)
  {
    hide EncodeBlock;
    hide FourIndices;
    hide Number;
    hide FromBigEndian;
    var q := EncodeBlock(s);
    if |s| == 3 {
      assert s == [s[0], s[1], s[2]] == s + Zeros(0);
      FullGroup(s[0], s[1], s[2]);
      OctetsBehind([], s[0], s[1], s[2]);
    } else if |s| == 2 {
      assert s == [s[0], s[1]] && s + Zeros(1) == [s[0], s[1], 0];
      TwoOctetGroup(s[0], s[1]);
      OctetsBehind([], s[0], s[1], 0);
    } else {
      assert s == [s[0]] && s + Zeros(2) == [s[0], 0, 0];
      OneOctetGroup(s[0]);
      OctetsBehind([], s[0], 0, 0);
    }
    NumberBehind([], q);
  }

  lemma NoPadding()
    ensures Sextet('=') == None
  {
  }

  /** The characters of a block, as one number, are its octets filled up with zeros to whole
      groups of three; the padding marks how many zeros that took, and stands at the end. */
  lemma {:induction false} BlockIsNumber(s: seq<byte>)
    ensures var m := Missing(|s|);
            var t := EncodeBlock(s);
            && Number(t) == FromBigEndian(s + Zeros(m))
            && forall i :: 0 <= i < |t| ==> (t[i] == '=' <==> i >= |t| - m)
    decreases |s|
  {
    hide EncodeBlock;
    hide Number;
    hide FromBigEndian;
    hide Missing;
    if s == [] {
      EmptyNumber();
    } else {
      var k := LastStart(|s|);
      var a, b := s[..k], s[k..];
      assert s == a + b && a + Zeros(0) == a;
      BlockIsNumber(a);
      LastGroup(b);
      BlocksJoin(a, b);
      GroupBehind(a, b, EncodeBlock(a), EncodeBlock(b));
    }
  }

  /** Where the last group starts. */
  lemma LastStart(n: nat) returns (k: nat)
    requires n > 0
    ensures k < n <= k + 3 && k % 3 == 0
    ensures Missing(k) == 0 && Missing(n - k) == Missing(n)
  {
    k := if n % 3 == 0 then n - 3 else n - n % 3;
  }

  lemma EmptyNumber()
    ensures EncodeBlock([]) == [] && Number([]) == 0 && FromBigEndian([] + Zeros(Missing(0))) == 0
  {
    assert [] + Zeros(0) == [];
  }

  lemma GroupBehind(a: seq<byte>, b: seq<byte>, t: string, q: string)
    requires |q| == 4 && 0 < |b| <= 3
    requires Number(t) == FromBigEndian(a)
    requires Number(q) == FromBigEndian(b + Zeros(Missing(|b|)))
    ensures Number(t + q) == FromBigEndian(a + b + Zeros(Missing(|b|)))
  {
    hide FourIndices;
    hide Number;
    hide FromBigEndian;
    var full := b + Zeros(Missing(|b|));
    assert full == [full[0], full[1], full[2]];
    assert a + b + Zeros(Missing(|b|)) == a + full;
    NumberBehind(t, q);
    OctetsBehind(a, full[0], full[1], full[2]);
  }

  // ----- decoding -----

  /** The number of padding characters at the end, at most two. */
  function Padding(t: string): (m: nat)
    ensures m <= 2 && m <= |t|
  {
    if t == [] || t[|t| - 1] != '=' then 0
    else if |t| == 1 || t[|t| - 2] != '=' then 1
    else 2
  }

  /** Whole groups of four characters of the table, of which the last two may be padding. */
  predicate IsBase64(t: string) {
    && |t| % 4 == 0
    && forall i :: 0 <= i < |t| - Padding(t) ==> Listed(t[i])
  }

  /** The factor by which padding shifts the number of a group. */
  function Shift(m: nat): nat {
    if m == 0 then 1 else if m == 1 then 0x100 else 0x1_0000
  }

  lemma FourAccepted(t: string)
    requires |t| == 4
    ensures DecodeFour(t[0], t[1], t[2], t[3], true).Some? <==> IsBase64(t)
    ensures IsBase64(t) ==> |DecodeFour(t[0], t[1], t[2], t[3], true).value| == 3 - Padding(t)
  {
    FourLetters(t[0], t[1], t[2], t[3]);
    FourListed(t);
    ListedExactly(t[0]);
    ListedExactly(t[1]);
    ListedExactly(t[2]);
    ListedExactly(t[3]);
    NoPadding();
    hide DecodeFour;
    hide Sextet;
    hide Listed;
    hide IsBase64;
  }

  lemma FourLetters(c: char, d: char, e: char, f: char)
    ensures var r := DecodeFour(c, d, e, f, true);
            && (r.Some? <==>
                  && Sextet(c).Some? && Sextet(d).Some?
                  && ((e == '=' && f == '=') || (Sextet(e).Some? && (f == '=' || Sextet(f).Some?))))
            && (r.Some? ==> |r.value| == if f != '=' then 3 else if e != '=' then 2 else 1)
  {
    NoPadding();
    hide Sextet;
  }

  lemma FourListed(t: string)
    requires |t| == 4
    ensures IsBase64(t) <==>
              && Listed(t[0]) && Listed(t[1])
              && ((t[2] == '=' && t[3] == '=') || (Listed(t[2]) && (t[3] == '=' || Listed(t[3]))))
    ensures Padding(t) == if t[3] != '=' then 0 else if t[2] != '=' then 1 else 2
  {
    ListedExactly('=');
    NoPadding();
    hide Sextet;
    hide Listed;
  }

  lemma FourValue(c: char, d: char, e: char, f: char)
    requires DecodeFour(c, d, e, f, true).Some?
    ensures var v, n := DecodeFour(c, d, e, f, true).value, FourIndices(c, d, e, f);
            && (|v| == 3 ==> v[0] as nat * 0x1_0000 + v[1] as nat * 0x100 + v[2] as nat == n)
            && (|v| == 2 ==> v[0] as nat * 0x100 + v[1] as nat == n / 0x100)
            && (|v| == 1 ==> v[0] == n / 0x1_0000)
  {
    NoPadding();
    hide Sextet;
    Unpack(Index(c), Index(d), Index(e), Index(f));
  }

  /** What one group decodes to: the octets of its number, less one for each padding character. */
  lemma FourDecodes(t: string)
    requires |t| == 4 && IsBase64(t)
    ensures var r := DecodeFour(t[0], t[1], t[2], t[3], true);
            r.Some? && FromBigEndian(r.value) == Number(t) / Shift(Padding(t))
  {
    hide Number;
    hide FromBigEndian;
    hide FourIndices;
    hide DecodeFour;
    hide IsBase64;
    hide Padding;
    FourAccepted(t);
    NumberBehind([], t);
    FourValue(t[0], t[1], t[2], t[3]);
    var v := DecodeFour(t[0], t[1], t[2], t[3], true).value;
    if |v| == 3 {
      assert v == [v[0], v[1], v[2]];
      OctetsBehind([], v[0], v[1], v[2]);
    } else {
      assert v == if |v| == 2 then [v[0], v[1]] else [v[0]];
      FewOctets(v[0], v[|v| - 1]);
    }
  }

  lemma FewOctets(x: byte, y: byte)
    ensures FromBigEndian([x]) == x && FromBigEndian([x, y]) == x * 256 + y
  {
    assert [] + [x] == [x] && [x] + [y] == [x, y] && FromBigEndian([]) == 0;
    OneOctetMore([], x);
    OneOctetMore([x], y);
  }

  lemma Unpack(a: sextet, b: sextet, c: sextet, d: sextet)
    ensures var n := a * 0x4_0000 + b * 0x1000 + c * 64 + d;
            && n == (a * 4 + b / 16) * 0x1_0000 + (b % 16 * 16 + c / 4) * 0x100 + (c % 4 * 64 + d)
            && n / 0x100 == (a * 4 + b / 16) * 0x100 + (b % 16 * 16 + c / 4)
            && n / 0x1_0000 == a * 4 + b / 16
  {
  }

  /** `v` has as many octets as `t` has groups of eight bits, and `t` as its number. */
  predicate Denotes(t: string, v: seq<byte>) {
    && |v| == |t| / 4 * 3 - Padding(t)
    && FromBigEndian(v) == Number(t) / Shift(Padding(t))
  }

  /** A text is decoded exactly when it is base64 by the table, and the octets it gives are
      its number, less what the padding takes off. */
  lemma {:induction false} DecodedIsNumber(t: string)
    ensures DecodeBlock(t).Some? <==> IsBase64(t)
    ensures DecodeBlock(t).Some? ==> Denotes(t, DecodeBlock(t).value)
    decreases |t|
  {
    hide FromBigEndian;
    hide Number;
    hide DecodeBlock;
    hide Padding;
    hide Shift;
    hide IsBase64;
    if t == [] {
      NothingDecodes();
    } else if |t| % 4 != 0 {
      WholeGroups(t);
    } else {
      var k := |t| - 4;
      var a, b := t[..k], t[k..];
      assert t == a + b;
      DecodedIsNumber(a);
      LastDecodes(b);
      OneGroupMore(a, b);
    }
  }

  lemma OneGroupMore(a: string, b: string)
    requires |a| % 4 == 0 && |b| == 4
    requires DecodeBlock(a).Some? <==> IsBase64(a)
    requires DecodeBlock(b).Some? <==> IsBase64(b)
    requires DecodeBlock(a).Some? ==> Denotes(a, DecodeBlock(a).value)
    requires DecodeBlock(b).Some? ==> Denotes(b, DecodeBlock(b).value)
    ensures DecodeBlock(a + b).Some? <==> IsBase64(a + b)
    ensures DecodeBlock(a + b).Some? ==> Denotes(a + b, DecodeBlock(a + b).value)
  {
    hide DecodeBlock;
    hide IsBase64;
    hide Denotes;
    DecodeJoin(a, b);
    Apart(a, b);
    if DecodeBlock(a + b).Some? {
      Composed(a, b, DecodeBlock(a).value, DecodeBlock(b).value);
    }
  }

  lemma Composed(a: string, b: string, x: seq<byte>, y: seq<byte>)
    requires |a| % 4 == 0 && |b| == 4 && Denotes(a, x) && Denotes(b, y)
    requires Padding(a) == 0 && Padding(a + b) == Padding(b)
    ensures Denotes(a + b, x + y)
  {
    hide Number;
    hide FromBigEndian;
    hide Padding;
    NumberBehind(a, b);
    ValueBehind(x, y, Number(a), Number(b), Padding(b));
    assert |a + b| / 4 == |a| / 4 + 1;
  }

  lemma NothingDecodes()
    ensures DecodeBlock([]) == Some([]) && IsBase64([]) && Padding([]) == 0 && Shift(0) == 1
    ensures FromBigEndian([]) == Number([]) == 0
  {
  }

  lemma {:induction false} WholeGroups(t: string)
    requires |t| % 4 != 0
    ensures DecodeBlock(t) == None && !IsBase64(t)
    decreases |t|
  {
    hide DecodeFour;
    if |t| > 4 {
      WholeGroups(t[4..]);
    }
  }

  lemma LastDecodes(t: string)
    requires |t| == 4
    ensures DecodeBlock(t).Some? <==> IsBase64(t)
    ensures DecodeBlock(t).Some? ==> Denotes(t, DecodeBlock(t).value)
  {
    hide DecodeFour;
    hide IsBase64;
    hide Number;
    hide FromBigEndian;
    FourAccepted(t);
    var r := DecodeFour(t[0], t[1], t[2], t[3], true);
    if r.Some? {
      FourDecodes(t);
      LastFour(t, r.value);
    } else {
      assert DecodeBlock(t) == Joined(r, DecodeBlock(t[4..]));
    }
  }

  /** Padding behind padding is not read: a text is base64 when its groups are, the last one
      alone being padded. */
  lemma Apart(a: string, b: string)
    requires |a| % 4 == 0 && |b| == 4
    ensures Padding(a + b) == Padding(b) && ('=' !in a ==> Padding(a) == 0)
    ensures IsBase64(a + b) <==> IsBase64(a) && '=' !in a && IsBase64(b)
  {
    ListedExactly('=');
    NoPadding();
    hide Listed;
    hide Sextet;
    var t, m := a + b, Padding(b);
    if IsBase64(t) {
      forall i | 0 <= i < |a| ensures Listed(a[i]) && a[i] != '=' {
        assert t[i] == a[i];
      }
      forall i | 0 <= i < 4 - m ensures Listed(b[i]) {
        assert t[|a| + i] == b[i];
      }
    }
    if IsBase64(a) && '=' !in a && IsBase64(b) {
      forall i | 0 <= i < |t| - m ensures Listed(t[i]) {
        assert t[i] == if i < |a| then a[i] else b[i - |a|];
      }
    }
  }

  /** Octets behind octets, and their number. */
  lemma ValueBehind(x: seq<byte>, y: seq<byte>, n: nat, k: nat, m: nat)
    requires m <= 2 && |y| == 3 - m && FromBigEndian(x) == n && FromBigEndian(y) == k / Shift(m)
    ensures FromBigEndian(x + y) == (n * 0x100_0000 + k) / Shift(m)
  {
    hide FromBigEndian;
    if m == 0 {
      assert y == [y[0], y[1], y[2]];
      OctetsBehind(x, y[0], y[1], y[2]);
    } else {
      FewOctets(y[0], y[|y| - 1]);
      OneOctetMore(x, y[0]);
      if m == 1 {
        assert y == [y[0], y[1]] && x + y == x + [y[0]] + [y[1]];
        OneOctetMore(x + [y[0]], y[1]);
      } else {
        assert y == [y[0]];
      }
    }
  }

  // ----- lines -----

  /** A full line of octets makes a full line of text, and so back. */
  lemma LineSizes(s: seq<byte>)
    ensures |s| == LINE <==> |s| % 3 == 0 && |EncodeBlock(s)| == TEXT_LINE
  {
  }

  /** Line ends stand behind every 64 characters and at the end. */
  lemma {:induction false} LineEnds(s: seq<byte>)
    ensures forall i :: 0 <= i < |Text(s)| ==> (Text(s)[i] == '\n' <==> i % 65 == 64 || i + 1 == |Text(s)|)
    decreases |s|
  {
    hide EncodeBlock;
    hide Text;
    if |s| < LINE {
      ShortText(s);
      NoLineEnd(s);
    } else {
      var line, more := s[..LINE], s[LINE..];
      FirstLine(s);
      NoLineEnd(line);
      LineEnds(more);
      LinesBehind(EncodeBlock(line), Text(more));
      EmptyLine(more);
    }
  }

  lemma EmptyLine(s: seq<byte>)
    ensures Text(s) == [] <==> s == []
  {
    TextFits(s);
  }

  lemma LinesBehind(line: string, more: string)
    requires |line| == 64 && '\n' !in line
    requires forall i :: 0 <= i < |more| ==> (more[i] == '\n' <==> i % 65 == 64 || i + 1 == |more|)
    ensures var t := line + ("\n" + more);
            forall i :: 0 <= i < |t| ==> (t[i] == '\n' <==> i % 65 == 64 || i + 1 == |t|)
  {
    var t := line + ("\n" + more);
    forall i | 0 <= i < |t| ensures t[i] == '\n' <==> i % 65 == 64 || i + 1 == |t| {
      if i >= 65 {
        assert t[i] == more[i - 65] && i % 65 == (i - 65) % 65;
      }
    }
  }

  /** What EVP_ENCODE_LENGTH reserves beyond the text and its NUL: 79 octets, one more for every
      full line, and one more for a text that ends with a full line. */
  lemma SpareRoom(s: seq<byte>)
    ensures var l := |s|;
            EncodeLength(l) == |Text(s)| + 1 + 80 + l / LINE + (if l % LINE == 0 then 1 else 0)
  {
    TextFits(s);
    hide Text;
  }

  /** EVP_DECODE_LENGTH of whole groups is what they decode to, with 80 octets to spare for
      pending characters. */
  lemma SpareDecodeRoom(t: string)
    requires DecodeBlock(t).Some?
    ensures DecodeLength(|t|) == |DecodeBlock(t).value| + Padding(t) + 80
  {
    hide DecodeBlock;
    hide IsBase64;
    hide Number;
    hide FromBigEndian;
    DecodedIsNumber(t);
    WholeText(t);
  }

  lemma WholeText(t: string)
    requires DecodeBlock(t).Some?
    ensures |t| % 4 == 0
  {
    hide DecodeBlock;
    if |t| % 4 != 0 {
      WholeGroups(t);
    }
  }
}
