/**
 What the EXPLICIT macros check of the length that the outer header declares, and what
 they do not.
 */
module Asn1Explicit {
  import opened Wrappers
  import opened X690
  import opened Asn1Schema
  import opened Asn1Decoding

  // ----- where an accepted value ends -----

  /** `used` octets end where the header says, or behind two zero octets. */
  predicate EndsWell(s: seq<byte>, used: nat)
    requires ReadHeader(s).Some?
  {
    var h := ReadHeader(s).value;
    if h.indefinite then 4 <= used <= |s| && s[used - 2..used] == [0, 0] else used == h.size + h.length
  }

  lemma ClosedAt(s: seq<byte>, n: nat)
    requires n <= |s|
    ensures AtEoc(s[n..]) <==> n + 2 <= |s| && s[n..n + 2] == [0, 0]
  {
  }

  lemma SliceBehind(s: seq<byte>, n: nat, i: nat, j: nat)
    requires n <= |s| && i <= j <= |s| - n
    ensures s[n..][i..j] == s[n + i..n + j]
  {
  }

  lemma ValueEnd(t: Type, prior: Value, s: seq<byte>)
    requires D2i(t, prior, s).Ok?
    ensures ReadHeader(s).Some? && EndsWell(s, D2i(t, prior, s).used)
  {
    hide ReadHeader;
    match t
    case Prim(tag) => PrimIsDefinite(tag, s);
    case Rec(fs, _) =>
      var h := ReadHeader(s).value;
      BodyEnd(fs, StartFields(fs, prior), s, h);
    case Loop(elem, _) => CollEnd(elem, TypeIdent(t), s);
  }

  lemma PrimIsDefinite(tag: PrimTag, s: seq<byte>)
    requires ReadHeader(s).Some? && s[0] == tag
    ensures !ReadHeader(s).value.indefinite
  {
  }

  lemma BodyEnd(fs: Fields, start: seq<Value>, s: seq<byte>, h: Header)
    requires ReadHeader(s) == Some(h) && |start| == Count(fs)
    requires D2iBody(fs, start, h.indefinite, h.size, Contents(s, h)).Ok?
    ensures EndsWell(s, D2iBody(fs, start, h.indefinite, h.size, Contents(s, h)).used)
  {
    hide ReadHeader;
    hide D2iFields;
    var used := D2iFields(fs, start, Contents(s, h)).used;
    if h.indefinite {
      ClosedAt(s, h.size + used);
      assert s[h.size..][used..] == s[h.size + used..];
    }
  }

  lemma CollEnd(elem: Type, ident: byte, s: seq<byte>)
    requires D2iColl(elem, ident, s).AllOk?
    ensures ReadHeader(s).Some? && EndsWell(s, D2iColl(elem, ident, s).used)
  {
    hide ReadHeader;
    hide D2iAll;
    var h := ReadHeader(s).value;
    if h.indefinite {
      var used := D2iAll(elem, s[h.size..], true).used;
      AllEnd(elem, s[h.size..]);
      SliceBehind(s, h.size, used - 2, used);
    }
  }

  lemma {:induction false} AllEnd(elem: Type, s: seq<byte>)
    requires D2iAll(elem, s, true).AllOk?
    ensures var used := D2iAll(elem, s, true).used;
            2 <= used <= |s| && s[used - 2..used] == [0, 0]
    decreases |s|
  {
    hide D2i;
    hide D2iAll;
    LoopStep(elem, s);
    ClosedAt(s, 0);
    assert s[0..] == s;
    if !AtEoc(s) {
      var n := D2i(elem, Null, s).used;
      AllEnd(elem, s[n..]);
      var used := D2iAll(elem, s[n..], true).used;
      SliceBehind(s, n, used - 2, used);
    }
  }

  lemma LoopStep(elem: Type, s: seq<byte>)
    requires D2iAll(elem, s, true).AllOk?
    ensures if AtEoc(s) then D2iAll(elem, s, true).used == 2
            else
              && D2i(elem, Null, s).Ok?
              && var n := D2i(elem, Null, s).used;
              && D2iAll(elem, s[n..], true).AllOk?
              && D2iAll(elem, s, true).used == n + D2iAll(elem, s[n..], true).used
  {
    hide D2i;
  }

  // ----- the definite form -----

  /** A definite explicit field that was read ends where its header declares exactly when the
      header inside declares that end too. (Behind an indefinite header inside, the declared
      end can only be met by two zero octets.) Nothing in the macro asks for it. */
  lemma ExplicitEnd(f: Field, prior: Value, s: seq<byte>)
    requires f.ExpOpt? || f.ExpColl?
    requires s != [] && Guard(f, s[0])
    requires ReadHeader(s).Some? && !ReadHeader(s).value.indefinite
    requires D2iField(f, prior, s).Ok?
    ensures var h := ReadHeader(s).value;
            var c := Contents(s, h);
            && ReadHeader(c).Some?
            && var g := ReadHeader(c).value;
            var reached := D2iField(f, prior, s).used == h.size + h.length;
            && (!g.indefinite ==> (reached <==> g.size + g.length == h.length))
            && (g.indefinite && reached ==> h.length >= 4 && c[h.length - 2..] == [0, 0])
  {
    hide D2i;
    hide D2iColl;
    hide ReadHeader;
    var h := ReadHeader(s).value;
    var c := Contents(s, h);
    assert ExpBudget(s, h) == c;
    if f.ExpOpt? {
      ValueEnd(f.t, prior, c);
    } else {
      CollEnd(f.elem, CollIdent(f.isSet, Universal), c);
    }
  }

  /** When it does not, the field list goes on inside the wrapper: six octets are declared to
      belong to the explicit field, and the second half of them is read as the next field. */
  lemma ExplicitSlack()
    ensures var fs := FCons(ExpOpt(Prim(4), 0, false), FCons(Plain(Prim(4)), FNil));
            var s := [0xa0, 6, 4, 1, 7, 4, 1, 9];
            var r := D2iFields(fs, [Null, Null], s);
            r.FieldsOk? && r.values == [Octets([7]), Octets([9])] && r.used == 8
  {
    var s: seq<byte> := [0xa0, 6, 4, 1, 7, 4, 1, 9];
    SlackFirst(s);
    SlackNext(s[5..], Null);
    hide D2iField;
    hide D2iFields;
    TwoFields(FCons(ExpOpt(Prim(4), 0, false), FCons(Plain(Prim(4)), FNil)), Null, Null, s, 5, 3);
  }

  lemma TwoFields(fs: Fields, p: Value, q: Value, s: seq<byte>, n: nat, m: nat)
    requires fs.FCons? && fs.tail.FCons? && fs.tail.tail == FNil
    requires D2iField(fs.head, p, s).Ok? && D2iField(fs.head, p, s).used == n > 0
    requires D2iField(fs.tail.head, q, s[n..]).Ok? && D2iField(fs.tail.head, q, s[n..]).used == m > 0
    ensures Count(fs) == 2
    ensures D2iFields(fs, [p, q], s)
              == FieldsOk([D2iField(fs.head, p, s).value, D2iField(fs.tail.head, q, s[n..]).value], n + m, Some(n))
  {
    hide D2iField;
    assert [p, q][1..] == [q] && [q][1..] == [];
    var w := D2iField(fs.tail.head, q, s[n..]).value;
    assert D2iFields(FNil, [], s[n..][m..]) == FieldsOk([], 0, None);
    assert D2iFields(fs.tail, [q], s[n..]) == FieldsOk([w], m, Some(0));
  }

  lemma SlackNext(s: seq<byte>, prior: Value)
    requires s == [4, 1, 9]
    ensures D2iField(Plain(Prim(4)), prior, s) == Ok(Octets([9]), 3)
  {
    assert s == [4, 1, 9] + [];
    OneOctet(9, []);
    hide D2i;
    assert D2i(Prim(4), prior, s) == Ok(Octets([9]), 3);
  }

  lemma SlackFirst(s: seq<byte>)
    requires s == [0xa0, 6, 4, 1, 7, 4, 1, 9]
    ensures D2iField(ExpOpt(Prim(4), 0, false), Null, s) == Ok(Octets([7]), 5)
  {
    assert ReadHeader(s) == Some(Header(false, 2, 6));
    assert s[2..8] == [4, 1, 7] + [4, 1, 9];
    OneOctet(7, [4, 1, 9]);
    hide D2i;
    hide ReadHeader;
  }

  lemma OneOctet(x: byte, rest: seq<byte>)
    ensures forall prior :: D2i(Prim(4), prior, [4, 1, x] + rest) == Ok(Octets([x]), 3)
  {
    var s := [4, 1, x] + rest;
    assert ReadHeader(s) == Some(Header(false, 2, 1));
    assert s[2..3] == [x];
  }

  // ----- the indefinite form -----

  /** `Tlen` is handed to the nested decoder without a test. It is negative exactly when the
      indefinite form has no room for its two closing octets; the field is then refused. */
  lemma NegativeTlen(f: Field, prior: Value, s: seq<byte>)
    requires f.ExpOpt? || f.ExpColl?
    requires s != [] && Guard(f, s[0]) && ReadHeader(s).Some?
    ensures var h := ReadHeader(s).value;
            && (Tlen(s, h) < 0 <==> h.indefinite && |s| < 4)
            && (Tlen(s, h) < 0 ==> D2iField(f, prior, s) == Err(NestedError, 0, prior))
  {
    var h := ReadHeader(s).value;
    if Tlen(s, h) < 0 {
      assert ExpBudget(s, h) == [];
      if f.ExpOpt? {
        NothingToRead(f.t, prior);
      }
    }
  }

  lemma NothingToRead(t: Type, prior: Value)
    ensures D2i(t, prior, []) == Err(BadObjectHeader, 0, prior)
  {
  }

  /** A sequence whose contents are the header A0 80 alone hands -2 to the nested decoder. */
  lemma MinusTwo()
    ensures Tlen([0xa0, 0x80], Header(true, 2, 0)) == -2
    ensures D2i(Rec(FCons(ExpOpt(Prim(4), 0, true), FNil), false), Null, [0x30, 2, 0xa0, 0x80])
              == Err(NestedError, 2, Null)
  {
    var f := ExpOpt(Prim(4), 0, true);
    var fs := FCons(f, FNil);
    var s: seq<byte> := [0x30, 2, 0xa0, 0x80];
    assert ReadHeader(s) == Some(Header(false, 2, 2));
    assert s[2..4] == [0xa0, 0x80];
    assert ReadHeader(s[2..4]) == Some(Header(true, 2, 0));
    NegativeTlen(f, Null, s[2..4]);
    hide ReadHeader;
    hide D2iField;
    assert D2iFields(fs, [Null], s[2..4]).FieldsErr?;
  }

  // ----- errors -----

  /** The octets that the value inside an explicit field uses, if it is read. */
  function InsideUsed(f: Field, prior: Value, s: seq<byte>): Option<nat>
    requires (f.ExpOpt? || f.ExpColl?) && ReadHeader(s).Some?
  {
    var inside := ExpBudget(s, ReadHeader(s).value);
    if f.ExpOpt? then
      var r := D2i(f.t, prior, inside);
      if r.Ok? then Some(r.used) else None
    else
      var r := D2iColl(f.elem, CollIdent(f.isSet, Universal), inside);
      if r.AllOk? then Some(r.used) else None
  }

  /** The three ways in which an explicit field fails, by their codes: its header cannot be
      read, the value inside cannot be read, or it can and 00 00 does not follow. */
  lemma ExplicitErrors(f: Field, prior: Value, s: seq<byte>)
    requires f.ExpOpt? || f.ExpColl?
    requires s != [] && Guard(f, s[0]) && D2iField(f, prior, s).Err?
    ensures D2iField(f, prior, s).at == 0
    ensures match D2iField(f, prior, s).error
            case BadObjectHeader => ReadHeader(s).None?
            case NestedError => ReadHeader(s).Some? && InsideUsed(f, prior, s).None?
            case MissingEos =>
              && ReadHeader(s).Some? && ReadHeader(s).value.indefinite
              && InsideUsed(f, prior, s).Some?
              && var n := 2 + InsideUsed(f, prior, s).value;
              n <= |s| && !(n + 2 <= |s| && s[n..n + 2] == [0, 0])
            case _ => false
  {
    hide D2i;
    hide D2iColl;
    hide ReadHeader;
    hide ExpBudget;
    if ReadHeader(s).Some? && InsideUsed(f, prior, s).Some? {
      ClosedAt(s, ReadHeader(s).value.size + InsideUsed(f, prior, s).value);
    }
  }

  /** A value without the two closing octets. */
  lemma MissingClose()
    ensures D2iField(ExpOpt(Prim(4), 0, true), Null, [0xa0, 0x80, 4, 1, 7, 1, 1])
              == Err(MissingEos, 0, Octets([7]))
  {
    hide D2iField;
    OpenValue([0xa0, 0x80, 4, 1, 7, 1, 1]);
  }

  lemma OpenValue(s: seq<byte>)
    requires s == [0xa0, 0x80, 4, 1, 7, 1, 1]
    ensures D2iField(ExpOpt(Prim(4), 0, true), Null, s) == Err(MissingEos, 0, Octets([7]))
  {
    assert ReadHeader(s) == Some(Header(true, 2, 0));
    assert ExpBudget(s, Header(true, 2, 0)) == s[2..5] == [4, 1, 7] + [];
    OneOctet(7, []);
    hide D2i;
    hide ReadHeader;
    hide ExpBudget;
  }
}
