/**
 Base64 text (RFC 4648 section 4) in lines of 48 input octets (RFC 1421 section 4.3.2.4), as
 an EVP_ENCODE_CTX produces it over any number of updates, and the two buffer size macros.
 */
module EvpBase64 {
  import opened Wrappers

  /** EVP_ENCODE_LENGTH(l) */
  function EncodeLength(l: nat): nat {
    (l + 2) / 3 * 4 + (l / 48 + 1) * 2 + 80
  }

  /** EVP_DECODE_LENGTH(l) */
  function DecodeLength(l: nat): nat {
    (l + 3) / 4 * 3 + 80
  }

  // ----- blocks -----

  type sextet = i: nat | i < 64

  function Symbol(i: sextet): (c: char)
    ensures c != '=' && c != '\n'
  {
    if i < 26 then (65 + i) as char
    else if i < 52 then (71 + i) as char
    else if i < 62 then (i - 4) as char
    else if i == 62 then '+'
    else '/'
  }

  function Sextet(c: char): Option<sextet> {
    if 'A' <= c <= 'Z' then Some(c as int - 65)
    else if 'a' <= c <= 'z' then Some(c as int - 71)
    else if '0' <= c <= '9' then Some(c as int + 4)
    else if c == '+' then Some(62)
    else if c == '/' then Some(63)
    else None
  }

  lemma SymbolSextet(i: sextet)
    ensures Sextet(Symbol(i)) == Some(i)
  {
  }

  /** `EVP_EncodeBlock` */
  function EncodeBlock(s: seq<byte>): (t: string)
    ensures |t| == (|s| + 2) / 3 * 4
    decreases |s|
  {
    if s == [] then []
    else if |s| == 1 then
      [Symbol(s[0] / 4), Symbol(s[0] % 4 * 16), '=', '=']
    else if |s| == 2 then
      [Symbol(s[0] / 4), Symbol(s[0] % 4 * 16 + s[1] / 16), Symbol(s[1] % 16 * 4), '=']
    else Quad(s[0], s[1], s[2]) + EncodeBlock(s[3..])
  }

  function Quad(x: byte, y: byte, z: byte): (t: string)
    ensures |t| == 4
  {
    [Symbol(x / 4), Symbol(x % 4 * 16 + y / 16), Symbol(y % 16 * 4 + z / 64), Symbol(z % 64)]
  }

  /** `EVP_DecodeBlock` with the padding taken off; `None` for text that is not base64. */
  function DecodeBlock(t: string): (r: Option<seq<byte>>)
    ensures r.Some? ==> |r.value| <= |t| / 4 * 3
    decreases |t|
  {
    if t == [] then Some([])
    else if |t| < 4 then None
    else Joined(DecodeFour(t[0], t[1], t[2], t[3], |t| == 4), DecodeBlock(t[4..]))
  }

  function Joined(x: Option<seq<byte>>, y: Option<seq<byte>>): Option<seq<byte>> {
    if x.Some? && y.Some? then Some(x.value + y.value) else None
  }

  /** Four characters; only the last four of a text may be padded. */
  function DecodeFour(t: char, u: char, v: char, w: char, last: bool): (r: Option<seq<byte>>)
    ensures r.Some? ==> 1 <= |r.value| <= 3
  {
    var a, b, c, d := Sextet(t), Sextet(u), Sextet(v), Sextet(w);
    if a.None? || b.None? then None
    else if last && v == '=' && w == '=' then Some([a.value * 4 + b.value / 16])
    else if c.None? then None
    else if last && w == '=' then Some([a.value * 4 + b.value / 16, b.value % 16 * 16 + c.value / 4])
    else if d.None? then None
    else Some([a.value * 4 + b.value / 16, b.value % 16 * 16 + c.value / 4, c.value % 4 * 64 + d.value])
  }

  lemma Repack(x: byte, y: byte, z: byte)
    ensures x / 4 * 4 + (x % 4 * 16 + y / 16) / 16 == x
    ensures (x % 4 * 16 + y / 16) % 16 * 16 + (y % 16 * 4 + z / 64) / 4 == y
    ensures (y % 16 * 4 + z / 64) % 4 * 64 + z % 64 == z
  {
  }

  lemma QuadDecodes(x: byte, y: byte, z: byte, last: bool)
    ensures var q := Quad(x, y, z);
            DecodeFour(q[0], q[1], q[2], q[3], last) == Some([x, y, z])
  {
    SymbolSextet(x / 4);
    SymbolSextet(x % 4 * 16 + y / 16);
    SymbolSextet(y % 16 * 4 + z / 64);
    SymbolSextet(z % 64);
    hide Symbol;
    hide Sextet;
    Repack(x, y, z);
  }

  lemma PaddedDecodes(x: byte, y: byte)
    ensures var q := EncodeBlock([x]);
            DecodeFour(q[0], q[1], q[2], q[3], true) == Some([x])
    ensures var q := EncodeBlock([x, y]);
            DecodeFour(q[0], q[1], q[2], q[3], true) == Some([x, y])
  {
    SymbolSextet(x / 4);
    SymbolSextet(x % 4 * 16);
    SymbolSextet(x % 4 * 16 + y / 16);
    SymbolSextet(y % 16 * 4);
    hide Symbol;
    hide Sextet;
    Unpad(x, y);
  }

  lemma Unpad(x: byte, y: byte)
    ensures x / 4 * 4 + x % 4 * 16 / 16 == x
    ensures x / 4 * 4 + (x % 4 * 16 + y / 16) / 16 == x
    ensures (x % 4 * 16 + y / 16) % 16 * 16 + y % 16 * 4 / 4 == y
  {
  }

  lemma LastFour(t: string, x: seq<byte>)
    requires |t| == 4 && DecodeFour(t[0], t[1], t[2], t[3], true) == Some(x)
    ensures DecodeBlock(t) == Some(x)
  {
    hide DecodeFour;
    assert t[4..] == [] && x + [] == x;
  }

  lemma FirstFour(q: string, rest: string, x: seq<byte>, y: seq<byte>)
    requires |q| == 4 && forall last :: DecodeFour(q[0], q[1], q[2], q[3], last) == Some(x)
    requires DecodeBlock(rest) == Some(y)
    ensures DecodeBlock(q + rest) == Some(x + y)
  {
    hide DecodeFour;
    assert (q + rest)[4..] == rest;
  }

  lemma {:induction false} BlockRoundTrip(s: seq<byte>)
    ensures DecodeBlock(EncodeBlock(s)) == Some(s)
    decreases |s|
  {
    hide DecodeFour;
    hide DecodeBlock;
    hide Quad;
    if s == [] {
      EmptyText();
    } else if |s| <= 2 {
      PaddedDecodes(s[0], s[|s| - 1]);
      assert s == if |s| == 1 then [s[0]] else [s[0], s[|s| - 1]];
      LastFour(EncodeBlock(s), s);
    } else {
      var more := EncodeBlock(s[3..]);
      BlockRoundTrip(s[3..]);
      forall last {
        QuadDecodes(s[0], s[1], s[2], last);
      }
      FirstFour(Quad(s[0], s[1], s[2]), more, [s[0], s[1], s[2]], s[3..]);
      assert s == [s[0], s[1], s[2]] + s[3..];
    }
  }

  lemma EmptyText()
    ensures DecodeBlock([]) == Some([])
  {
  }

  /** Blocks of whole triples can be joined. */
  lemma {:induction false} BlocksJoin(a: seq<byte>, b: seq<byte>)
    requires |a| % 3 == 0
    ensures EncodeBlock(a) + EncodeBlock(b) == EncodeBlock(a + b)
    decreases |a|
  {
    hide Symbol;
    if a == [] {
      assert [] + b == b;
    } else {
      assert (a + b)[3..] == a[3..] + b;
      BlocksJoin(a[3..], b);
    }
  }

  // ----- lines -----

  const LINE: nat := 48

  function FullLines(s: seq<byte>): string
    decreases |s|
  {
    if |s| < LINE then [] else EncodeBlock(s[..LINE]) + "\n" + FullLines(s[LINE..])
  }

  function Leftover(s: seq<byte>): (r: seq<byte>)
    ensures |r| < LINE
    decreases |s|
  {
    if |s| < LINE then s else Leftover(s[LINE..])
  }

  function LastLine(s: seq<byte>): string {
    if s == [] then [] else EncodeBlock(s) + "\n"
  }

  /** The whole text of `s`. */
  function Text(s: seq<byte>): string {
    FullLines(s) + LastLine(Leftover(s))
  }

  /** Encoding in two steps writes what encoding in one step writes. */
  lemma {:induction false} Resume(s: seq<byte>, t: seq<byte>)
    ensures FullLines(s + t) == FullLines(s) + FullLines(Leftover(s) + t)
    ensures Leftover(s + t) == Leftover(Leftover(s) + t)
    decreases |s|
  {
    hide EncodeBlock;
    if |s| >= LINE {
      assert (s + t)[..LINE] == s[..LINE] && (s + t)[LINE..] == s[LINE..] + t;
      Resume(s[LINE..], t);
    }
  }

  /** The size of the text; with the final NUL it fits EVP_ENCODE_LENGTH. */
  lemma {:induction false} TextFits(s: seq<byte>)
    ensures |Text(s)| == (|s| + 2) / 3 * 4 + (|s| + LINE - 1) / LINE
    ensures |Text(s)| + 1 <= EncodeLength(|s|)
    decreases |s|
  {
    hide EncodeBlock;
    hide Text;
    if |s| >= LINE {
      TextFits(s[LINE..]);
      OneLine(|s|);
      FirstLine(s);
    } else {
      ShortText(s);
    }
  }

  lemma FirstLine(s: seq<byte>)
    requires |s| >= LINE
    ensures Text(s) == EncodeBlock(s[..LINE]) + ("\n" + Text(s[LINE..]))
  {
    hide EncodeBlock;
  }

  lemma ShortText(s: seq<byte>)
    requires |s| < LINE
    ensures Text(s) == LastLine(s)
  {
    hide EncodeBlock;
  }

  lemma OneLine(n: nat)
    requires n >= LINE
    ensures (n + 2) / 3 * 4 == 64 + (n - LINE + 2) / 3 * 4
    ensures (n + LINE - 1) / LINE == 1 + (n - LINE + LINE - 1) / LINE
  {
  }

  function Strip(t: string): (r: string)
    ensures |r| <= |t|
  {
    if t == [] then [] else if t[0] == '\n' then Strip(t[1..]) else [t[0]] + Strip(t[1..])
  }

  /** Line ends are dropped, the rest must be base64. */
  function Decode(t: string): (r: Option<seq<byte>>)
    ensures r.Some? ==> |r.value| <= DecodeLength(|t|)
  {
    DecodeBlock(Strip(t))
  }

  lemma {:induction false} StripJoin(a: string, b: string)
    ensures Strip(a + b) == Strip(a) + Strip(b)
  {
    if a == [] {
      assert [] + b == b;
    } else {
      assert (a + b)[1..] == a[1..] + b;
      StripJoin(a[1..], b);
    }
  }

  lemma StripBlock(s: seq<byte>)
    ensures Strip(EncodeBlock(s)) == EncodeBlock(s)
    decreases |s|
  {
    NoLineEnd(s);
    StripNothing(EncodeBlock(s));
  }

  lemma {:induction false} NoLineEnd(s: seq<byte>)
    ensures '\n' !in EncodeBlock(s)
    decreases |s|
  {
    if |s| > 2 {
      NoLineEnd(s[3..]);
    }
  }

  lemma {:induction false} StripNothing(t: string)
    requires '\n' !in t
    ensures Strip(t) == t
  {
    if t != [] {
      StripNothing(t[1..]);
    }
  }

  lemma {:induction false} StripText(s: seq<byte>)
    ensures Strip(Text(s)) == EncodeBlock(s)
    decreases |s|
  {
    hide EncodeBlock;
    hide Strip;
    hide Text;
    NewlineStrips();
    if |s| < LINE {
      ShortText(s);
      if s == [] {
        StripBlock(s);
        EmptyBlock();
      } else {
        StripJoin(EncodeBlock(s), "\n");
        StripBlock(s);
      }
    } else {
      var line, more := s[..LINE], s[LINE..];
      FirstLine(s);
      StripJoin(EncodeBlock(line), "\n" + Text(more));
      StripJoin("\n", Text(more));
      StripBlock(line);
      StripText(more);
      BlocksJoin(line, more);
      assert s == line + more;
    }
  }

  lemma NewlineStrips()
    ensures Strip("\n") == [] && Strip([]) == []
  {
  }

  lemma EmptyBlock()
    ensures EncodeBlock([]) == []
  {
  }

  /** Decoding undoes encoding. */
  lemma TextRoundTrip(s: seq<byte>)
    ensures Decode(Text(s)) == Some(s)
  {
    StripText(s);
    BlockRoundTrip(s);
  }

  // ----- one update -----

  lemma {:induction false} FullLinesSize(s: seq<byte>)
    ensures |FullLines(s)| == |s| / LINE * 65
    decreases |s|
  {
    hide EncodeBlock;
    if |s| >= LINE {
      FullLinesSize(s[LINE..]);
      var line, more := EncodeBlock(s[..LINE]), FullLines(s[LINE..]);
      assert |line| == 64 && FullLines(s) == line + "\n" + more;
      hide FullLines;
      assert |s| / LINE == 1 + |s[LINE..]| / LINE;
    }
  }

  /** With up to 47 octets pending from earlier updates, the output for `l` new octets fits
      EVP_ENCODE_LENGTH(l) together with a NUL. */
  lemma UpdateFits(pending: seq<byte>, input: seq<byte>)
    requires |pending| < LINE
    ensures |FullLines(pending + input)| + 1 <= EncodeLength(|input|)
  {
    FullLinesSize(pending + input);
    var l := |input|;
    assert |pending + input| / LINE <= l / LINE + 1;
  }

  // ----- EVP_ENCODE_CTX -----

  /** EVP_ENCODE_CTX while encoding: `enc_data[..num]` waits for a full line. */
  class EncodeCtx {
    const length: nat := LINE
    const encData: array<byte>
    var num: nat

    ghost predicate Valid()
      reads this
    {
      encData.Length == 80 && num < length
    }

    ghost function Pending(): seq<byte>
      reads this, encData
      requires Valid()
    {
      encData[..num]
    }

    /** `EVP_EncodeInit` */
    constructor ()
      ensures Valid() && Pending() == [] && fresh(encData)
    {
      encData := new byte[80](_ => 0);
      num := 0;
    }

    /** Copy `s` behind the pending octets. */
    method Save(s: seq<byte>)
      requires Valid() && num + |s| < length
      modifies this`num, encData
      ensures Valid() && Pending() == old(Pending()) + s
    {
      var i := 0;
      while i < |s|
        invariant 0 <= i <= |s| && num == old(num)
        invariant encData[..num + i] == old(encData[..num]) + s[..i]
      {
        encData[num + i] := s[i];
        i := i + 1;
      }
      num := num + |s|;
    }

    /** `EVP_EncodeUpdate` */
    method Update(input: seq<byte>) returns (out: string)
      requires Valid()
      modifies this`num, encData
      ensures Valid()
      ensures out == FullLines(old(Pending()) + input)
      ensures Pending() == Leftover(old(Pending()) + input)
      ensures |out| + 1 <= EncodeLength(|input|)
    {
      hide EncodeBlock;
      UpdateFits(Pending(), input);
      ghost var whole := Pending() + input;
      out := "";
      var rest := input;
      if num + |input| < length {
        Save(input);
        return;
      }
      rest := encData[..num] + input;
      num := 0;
      while |rest| >= length
        invariant Valid() && num == 0
        invariant FullLines(whole) == out + FullLines(rest)
        invariant Leftover(whole) == Leftover(rest)
        decreases |rest|
      {
        out := out + (EncodeBlock(rest[..length]) + "\n");
        rest := rest[length..];
      }
      Save(rest);
    }

    /** `EVP_EncodeFinal` */
    method Final() returns (out: string)
      requires Valid()
      modifies this`num
      ensures Valid() && Pending() == []
      ensures out == LastLine(old(Pending()))
      ensures |out| + 1 <= EncodeLength(0)
    {
      out := "";
      if num != 0 {
        out := EncodeBlock(encData[..num]) + "\n";
        num := 0;
      }
    }
  }

  function Concat<T>(parts: seq<seq<T>>): seq<T> {
    if parts == [] then [] else Concat(parts[..|parts| - 1]) + parts[|parts| - 1]
  }

  /** Init, any number of updates, Final: the text does not depend on how the input was cut
      up, and with its NUL it fits the buffer that EVP_ENCODE_LENGTH asks for. */
  method EncodeParts(parts: seq<seq<byte>>) returns (text: string)
    ensures text == Text(Concat(parts))
    ensures |text| + 1 <= EncodeLength(|Concat(parts)|)
    ensures Decode(text) == Some(Concat(parts))
  {
    hide EncodeBlock;
    hide FullLines;
    hide Leftover;
    var c := new EncodeCtx();
    text := "";
    var i := 0;
    Nothing();
    while i < |parts|
      invariant 0 <= i <= |parts|
      invariant fresh(c) && fresh(c.encData) && c.Valid()
      invariant text == FullLines(Concat(parts[..i]))
      invariant c.Pending() == Leftover(Concat(parts[..i]))
    {
      ConcatNext(parts, i);
      Resume(Concat(parts[..i]), parts[i]);
      var out := c.Update(parts[i]);
      text := text + out;
      i := i + 1;
    }
    assert parts[..i] == parts;
    var out := c.Final();
    text := text + out;
    TextFits(Concat(parts));
    TextRoundTrip(Concat(parts));
  }

  lemma ConcatNext<T>(parts: seq<seq<T>>, i: nat)
    requires i < |parts|
    ensures Concat(parts[..i + 1]) == Concat(parts[..i]) + parts[i]
  {
    assert parts[..i + 1][..i] == parts[..i];
  }

  lemma Nothing()
    ensures Concat<byte>([]) == [] && FullLines([]) == [] && Leftover([]) == []
  {
  }
}
