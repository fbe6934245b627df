/**
 What the macros write and read, told in octets and not through the functions that the
 encoder and the decoder share.
 */
module Asn1Octets {
  import opened Wrappers
  import opened X690
  import opened X690Laws
  import opened Asn1Schema
  import opened Asn1Encoding
  import opened Asn1Decoding
  import opened Asn1SetOrder
  import opened Asn1Failure

  // ----- values -----

  /** Tag, length and contents of a value. */
  lemma ValueWritten(t: Type, v: Value)
    requires Fits(t, v)
    ensures var e := I2d(t, v);
            match t
            case Prim(tag) => e == [tag] + LengthOctets(|v.content|) + v.content
            case Rec(fs, indefinite) => e == SequenceOctets(indefinite, I2dFields(fs, v.fields))
            case Loop(elem, indefinite) => e == SequenceOctets(indefinite, Flat(Encodings(elem, v.elems)))
  {
    hide Wrap;
    hide I2dFields;
    hide I2dAll;
    hide Flat;
    hide LengthOctets;
    match t
    case Prim(tag) => WrapOctets(tag, false, v.content);
    case Rec(fs, indefinite) => WrapOctets(0x30, indefinite, I2dFields(fs, v.fields));
    case Loop(elem, indefinite) =>
      AllWritten(elem, v.elems);
      WrapOctets(0x30, indefinite, I2dAll(elem, v.elems));
  }

  lemma WrapOctets(ident: byte, indefinite: bool, body: seq<byte>)
    ensures Wrap(ident, indefinite, body)
              == if indefinite then [ident, 0x80] + body + [0, 0] else [ident] + LengthOctets(|body|) + body
  {
  }

  function SequenceOctets(indefinite: bool, body: seq<byte>): seq<byte> {
    if indefinite then [0x30, 0x80] + body + [0, 0] else [0x30] + LengthOctets(|body|) + body
  }

  /** One behind the other. */
  function Flat(es: seq<seq<byte>>): seq<byte> {
    if es == [] then [] else es[0] + Flat(es[1..])
  }

  lemma {:induction false} AllWritten(t: Type, vs: seq<Value>)
    ensures I2dAll(t, vs) == Flat(Encodings(t, vs))
    decreases |vs|
  {
    hide I2d;
    if vs != [] {
      AllWritten(t, vs[1..]);
      EncodingsTail(t, vs);
    }
  }

  /** The fields of a structure, in the order of the schema. */
  lemma {:induction false} FieldsWritten(fs: Fields, vs: seq<Value>, es: seq<seq<byte>>)
    requires |vs| == |es| == Count(fs)
    requires forall i :: 0 <= i < Count(fs) ==> es[i] == I2dField(Nth(fs, i), vs[i])
    ensures I2dFields(fs, vs) == Flat(es)
    decreases fs
  {
    hide I2dField;
    match fs
    case FNil =>
    case FCons(f, rest) =>
      var more := es[1..];
      assert es[0] == I2dField(Nth(fs, 0), vs[0]);
      forall i | 0 <= i < Count(rest) ensures more[i] == I2dField(Nth(rest, i), vs[1..][i]) {
        assert more[i] == es[i + 1] == I2dField(Nth(fs, i + 1), vs[i + 1]);
      }
      FieldsWritten(rest, vs[1..], more);
  }

  // ----- collections -----

  /** The identifier octet of a SET OF or SEQUENCE OF. */
  function CollOctet(isSet: bool, tagging: Tagging): byte {
    match tagging
    case Universal => if isSet then 0x31 else 0x30
    case Context(tag) => 0xa0 + tag
  }

  /** `x` comes before `y`, or is `y`: where they part, `x` ends or has the smaller octet. */
  ghost predicate Precedes(x: seq<byte>, y: seq<byte>) {
    exists k: nat :: PartsAt(x, y, k)
  }

  predicate PartsAt(x: seq<byte>, y: seq<byte>, k: nat) {
    && k <= |x| && k <= |y| && x[..k] == y[..k]
    && (k == |x| || (k < |y| && x[k] < y[k]))
  }

  lemma {:induction false} PartsSomewhere(x: seq<byte>, y: seq<byte>)
    requires OctetsLe(x, y)
    ensures Precedes(x, y)
  {
    if x == [] || x[0] < y[0] {
      assert PartsAt(x, y, 0);
    } else {
      PartsSomewhere(x[1..], y[1..]);
      var k: nat :| PartsAt(x[1..], y[1..], k);
      assert x == [x[0]] + x[1..] && y == [x[0]] + y[1..];
      assert x[..k + 1] == [x[0]] + x[1..][..k] && y[..k + 1] == [x[0]] + y[1..][..k];
      assert PartsAt(x, y, k + 1);
    }
  }

  /** A collection is its identifier octet, its length and the encodings of its elements. A
      SEQUENCE OF keeps their order; a SET OF has each of them as often, and in ascending order. */
  lemma CollWritten(elem: Type, isSet: bool, tagging: Tagging, vs: seq<Value>)
    ensures var es := Encodings(elem, Arrange(elem, isSet, vs));
            && I2dColl(elem, isSet, tagging, vs)
                 == [CollOctet(isSet, tagging)] + LengthOctets(|Flat(es)|) + Flat(es)
            && (!isSet ==> es == Encodings(elem, vs))
            && multiset(es) == multiset(Encodings(elem, vs))
            && (isSet ==> forall i :: 0 <= i < |es| - 1 ==> Precedes(es[i], es[i + 1]))
  {
    hide I2d;
    hide OctetsLe;
    hide Precedes;
    var ws := Arrange(elem, isSet, vs);
    var es := Encodings(elem, ws);
    AllWritten(elem, ws);
    PermutedEncodings(elem, ws, vs);
    if isSet {
      SortAscends(elem, vs);
      AscendingEncodings(elem, ws);
      forall i | 0 <= i < |es| - 1 ensures Precedes(es[i], es[i + 1]) {
        assert OctetsLe(es[i], es[i + 1]);
        PartsSomewhere(es[i], es[i + 1]);
      }
    }
  }

  /** A SEQUENCE OF that the put macro writes is what a loop on `M_ASN1_D2I_end_sequence` reads,
      and get_seq reads what such a loop reads. */
  lemma SequenceOfIsLoop(elem: Type, indefinite: bool, vs: seq<Value>, prior: Value, s: seq<byte>)
    ensures I2dColl(elem, false, Universal, vs) == I2d(Loop(elem, false), Stack(vs))
    ensures D2iField(Coll(elem, false, Universal, false), prior, s)
              == Nested(D2i(Loop(elem, indefinite), prior, s))
  {
    hide D2iColl;
  }

  // ----- two small collections -----

  lemma OneOctetValue(x: byte)
    ensures I2d(Prim(4), Octets([x])) == [4, 1, x]
  {
  }

  /** A SET OF the octet strings 2 and 1 is written with 1 first. */
  lemma SmallerFirst()
    ensures I2dColl(Prim(4), true, Universal, [Octets([2]), Octets([1])])
              == [0x31, 6, 4, 1, 1, 4, 1, 2]
  {
    OneOctetValue(1);
    OneOctetValue(2);
    hide I2dColl;
    hide I2d;
    TwoSorted(Prim(4), [Octets([2]), Octets([1])], [4, 1, 2], [4, 1, 1]);
  }

  lemma TwoSorted(t: Type, vs: seq<Value>, x: seq<byte>, y: seq<byte>)
    requires |vs| == 2 && I2d(t, vs[0]) == x == [4, 1, 2] && I2d(t, vs[1]) == y == [4, 1, 1]
    ensures I2dColl(t, true, Universal, vs) == [0x31, 6, 4, 1, 1, 4, 1, 2]
  {
    OneBeforeTwo();
    hide I2d;
    hide OctetsLe;
    hide I2dColl;
    Exchanged(t, vs);
    WrapOctets(0x31, false, y + x);
    hide Wrap;
    assert y + x == [4, 1, 1, 4, 1, 2];
  }

  lemma OneBeforeTwo()
    ensures !OctetsLe([4, 1, 2], [4, 1, 1])
  {
    assert [4, 1, 2][1..] == [1, 2] && [4, 1, 1][1..] == [1, 1];
    assert [1, 2][1..] == [2] && [1, 1][1..] == [1];
  }

  /** Two elements that stand in the wrong order. */
  lemma Exchanged(t: Type, vs: seq<Value>)
    requires |vs| == 2 && !OctetsLe(I2d(t, vs[0]), I2d(t, vs[1]))
    ensures I2dColl(t, true, Universal, vs) == Wrap(0x31, false, I2d(t, vs[1]) + I2d(t, vs[0]))
  {
    hide I2d;
    hide OctetsLe;
    hide Wrap;
    hide Sort;
    hide I2dAll;
    TwoInserted(t, vs);
    PairWritten(t, vs[1], vs[0]);
  }

  lemma PairWritten(t: Type, v: Value, w: Value)
    ensures I2dAll(t, [v, w]) == I2d(t, v) + I2d(t, w)
  {
    hide I2d;
    assert [v, w][1..] == [w] && [w][1..] == [];
    assert I2dAll(t, [w]) == I2d(t, w) + [];
  }

  lemma TwoInserted(t: Type, vs: seq<Value>)
    requires |vs| == 2 && !OctetsLe(I2d(t, vs[0]), I2d(t, vs[1]))
    ensures Sort(t, vs) == [vs[1], vs[0]]
  {
    hide I2d;
    hide OctetsLe;
    var ws := vs[1..];
    assert ws == [vs[1]] && ws[1..] == [];
    assert Sort(t, ws) == Insert(t, vs[1], []) == ws;
    assert Insert(t, vs[0], ws) == [vs[1]] + [vs[0]];
  }

  /** get_seq reads 30 03 04 01 07, and get_set refuses it. */
  lemma SequenceIsNoSet(prior: Value)
    ensures D2iField(Coll(Prim(4), false, Universal, false), prior, [0x30, 3, 4, 1, 7])
              == Ok(Stack([Octets([7])]), 5)
    ensures D2iField(Coll(Prim(4), true, Universal, false), prior, [0x30, 3, 4, 1, 7])
              == Err(NestedError, 0, prior)
  {
    hide D2iField;
    SequenceRead(prior, [0x30, 3, 4, 1, 7]);
  }

  lemma SequenceRead(prior: Value, s: seq<byte>)
    requires s == [0x30, 3, 4, 1, 7]
    ensures D2iField(Coll(Prim(4), false, Universal, false), prior, s) == Ok(Stack([Octets([7])]), 5)
    ensures D2iField(Coll(Prim(4), true, Universal, false), prior, s) == Err(NestedError, 0, prior)
  {
    assert ReadHeader(s) == Some(Header(false, 2, 3)) && s[2..5] == [4, 1, 7];
    SingleRead([4, 1, 7]);
    hide ReadHeader;
    hide D2iAll;
  }

  lemma SingleRead(s: seq<byte>)
    requires s == [4, 1, 7]
    ensures D2iAll(Prim(4), s, false) == AllOk([Octets([7])], 3)
  {
    assert ReadHeader(s) == Some(Header(false, 2, 1)) && s[2..3] == [7];
    assert D2i(Prim(4), Null, s) == Ok(Octets([7]), 3);
    assert s[3..] == [] && D2iAll(Prim(4), [], false) == AllOk([], 0);
    hide D2i;
    hide ReadHeader;
  }

  // ----- fields -----

  /** The octets of a field that is written: its identifier octet and what stands behind it. */
  lemma FieldWritten(f: Field, v: Value)
    requires FieldFits(f, v) && !Omitted(f, v)
    ensures var e := I2dField(f, v);
            match f
            case Plain(t) => e == I2d(t, v)
            case Opt(t) => e == I2d(t, v)
            case ImpOpt(t, tag) =>
              |I2d(t, v)| > 0 && e == [(if t.Prim? then 0x80 else 0xa0) + tag] + I2d(t, v)[1..]
            case ExpOpt(t, tag, indefinite) => e == ExplicitOctets(tag, indefinite, I2d(t, v))
            case Coll(elem, isSet, tagging, _) => e == I2dColl(elem, isSet, tagging, v.elems)
            case ExpColl(elem, isSet, tag) =>
              e == ExplicitOctets(tag, false, I2dColl(elem, isSet, Universal, v.elems))
  {
    match f
    case ImpOpt(t, _) => I2dStarts(t, v);
    case _ =>
  }

  function ExplicitOctets(tag: CtxTag, indefinite: bool, e: seq<byte>): seq<byte> {
    if indefinite then [0xa0 + tag, 0x80] + e + [0, 0] else [0xa0 + tag] + LengthOctets(|e|) + e
  }

  /** What is not written: a NULL pointer, and behind an `_opt` guard an empty stack. Without
      the guard an empty stack is written as a header alone. */
  lemma NothingWritten(f: Field)
    ensures I2dField(f, Null) == []
    ensures (f.Coll? && f.opt) || f.ExpColl? ==> I2dField(f, Stack([])) == []
    ensures f.Coll? && !f.opt ==> I2dField(f, Stack([])) == [CollOctet(f.isSet, f.tagging), 0]
  {
    if f.Coll? && !f.opt {
      CollWritten(f.elem, f.isSet, f.tagging, []);
      assert Arrange(f.elem, f.isSet, []) == [];
    }
  }

  // ----- guards -----

  /** `a` and `b` differ in the constructed bit alone. */
  predicate DifferInConstructed(a: byte, b: byte) {
    a != b && (a == b + 0x20 || b == a + 0x20) && a / 0x40 == b / 0x40
  }

  /** get_opt and get_IMP_opt do not look at the constructed bit of the next octet: a value
      with the other bit is taken for the field, and refused. */
  lemma TakenAndRefused(f: Field, prior: Value, s: seq<byte>)
    requires (f.Opt? || f.ImpOpt?) && s != [] && DifferInConstructed(s[0], FieldIdent(f))
    ensures D2iField(f, prior, s) == Err(NestedError, 0, prior)
  {
    if f.Opt? {
      assert s[0] != TypeIdent(f.t);
      OtherIdent(f.t, prior, s);
    } else {
      assert Rewritten(f.t, s)[0] != TypeIdent(f.t);
      OtherIdent(f.t, prior, Rewritten(f.t, s));
    }
    hide D2i;
  }

  lemma OtherIdent(t: Type, prior: Value, s: seq<byte>)
    requires s != [] && s[0] != TypeIdent(t)
    ensures D2i(t, prior, s).Err? && D2i(t, prior, s).left == prior
  {
    hide ReadHeader;
    hide D2iBody;
    hide D2iAll;
  }

  /** The other optional macros compare the whole octet: the same value is passed over. */
  lemma PassedOver(f: Field, prior: Value, s: seq<byte>)
    requires f.ExpOpt? || f.ExpColl? || (f.Coll? && f.opt)
    requires s != [] && DifferInConstructed(s[0], FieldIdent(f))
    ensures D2iField(f, prior, s) == Ok(prior, 0)
  {
  }

  /** The octets that each optional macro answers to. */
  lemma AnswersTo(f: Field, prior: Value, s: seq<byte>)
    requires MayOmit(f) && s != []
    ensures D2iField(f, prior, s) == Ok(prior, 0) <==>
              match f
              case Opt(t) =>
                var tag := if t.Prim? then t.tag else 0x10;
                s[0] != tag && s[0] != 0x20 + tag
              case ImpOpt(_, tag) => s[0] != 0x80 + tag && s[0] != 0xa0 + tag
              case ExpOpt(_, tag, _) => s[0] != 0xa0 + tag
              case ExpColl(_, _, tag) => s[0] != 0xa0 + tag
              case Coll(_, isSet, tagging, _) => s[0] != CollOctet(isSet, tagging)
              case Plain(_) => true
  {
    hide D2i;
    hide D2iColl;
    hide ReadHeader;
    hide ExpBudget;
    hide Rewritten;
  }

  // ----- cut off and lengthened values -----

  /** A definite value that is cut off anywhere is refused. */
  lemma TruncatedValue(t: Type, prior: Value, v: Value, k: nat)
    requires t.Prim? || !t.indefinite
    requires Fits(t, v) && k < |I2d(t, v)| <= INT_MAX
    ensures D2i(t, prior, I2d(t, v)[..k]) == Err(BadObjectHeader, 0, prior)
  {
    var body := match t
      case Prim(_) => v.content
      case Rec(fs, _) => I2dFields(fs, v.fields)
      case Loop(elem, _) => I2dAll(elem, v.elems);
    TruncatedHeader(TypeIdent(t), body, k);
    hide ReadHeader;
  }

  /** No encoding of a primitive value that is accepted is shorter than the one written. */
  lemma ShortestPrimitive(tag: PrimTag, prior: Value, s: seq<byte>)
    requires D2i(Prim(tag), prior, s).Ok? && D2i(Prim(tag), prior, s).used <= INT_MAX
    ensures |I2d(Prim(tag), D2i(Prim(tag), prior, s).value)| <= D2i(Prim(tag), prior, s).used
  {
    var h := ReadHeader(s).value;
    assert !h.indefinite;
    ShortestHeader(s, h.size, h.length);
    hide ReadHeader;
    hide LengthOctets;
  }

  /** What a primitive value holds, whatever form its length has. */
  lemma PrimitiveRead(tag: PrimTag, prior: Value, s: seq<byte>, c: seq<byte>, used: nat)
    ensures D2i(Prim(tag), prior, s) == Ok(Octets(c), used) <==>
              |c| <= used && Declares(s, used - |c|, |c|) && s[0] == tag && c == s[used - |c|..used]
  {
    hide ReadHeader;
    if D2i(Prim(tag), prior, s) == Ok(Octets(c), used) {
      var h := ReadHeader(s).value;
      assert !h.indefinite by { IndefiniteExactly(s); }
      HeaderExactly(s, h.size, h.length);
    } else if |c| <= used {
      HeaderExactly(s, used - |c|, |c|);
    }
    hide Declares;
  }

  // ----- errors of values -----

  /** A value of another type is told from one whose header cannot be read. */
  lemma HeaderErrors(t: Type, prior: Value, s: seq<byte>)
    ensures ReadHeader(s).None? ==> D2i(t, prior, s) == Err(BadObjectHeader, 0, prior)
    ensures ReadHeader(s).Some? && s[0] != (if t.Prim? then t.tag else 0x30) ==>
              D2i(t, prior, s) == Err(WrongTag, 0, prior)
    ensures ReadHeader(s).Some? && t.Prim? && s[0] == t.tag ==> D2i(t, prior, s).Ok?
  {
    hide ReadHeader;
    hide D2iBody;
    hide D2iAll;
  }

  /** A collection fails behind its header at the first element that cannot be read. */
  lemma CollectionErrors(elem: Type, ident: byte, s: seq<byte>)
    requires D2iColl(elem, ident, s).AllErr?
    ensures var r := D2iColl(elem, ident, s);
            if ReadHeader(s).None? then r == AllErr(BadObjectHeader, 0)
            else if s[0] != ident then r == AllErr(WrongTag, 0)
            else
              var h := ReadHeader(s).value;
              var body := Contents(s, h);
              && r.error == NestedError && h.size <= r.at <= h.size + |body|
              && Elements(elem, body, r.at - h.size)
              && D2i(elem, Null, body[r.at - h.size..]).Err?
  {
    hide ReadHeader;
    hide D2iAll;
    if ReadHeader(s).Some? && s[0] == ident {
      var h := ReadHeader(s).value;
      ElementError(elem, Contents(s, h), h.indefinite);
    }
  }

  /** Elements of the type, one behind the other, end at octet `n`. */
  predicate Elements(elem: Type, s: seq<byte>, n: nat)
    decreases n
  {
    n == 0 ||
    var r := D2i(elem, Null, s);
    r.Ok? && r.used <= n && Elements(elem, s[r.used..], n - r.used)
  }

  lemma {:induction false} ElementError(elem: Type, s: seq<byte>, indefinite: bool)
    requires D2iAll(elem, s, indefinite).AllErr?
    ensures var r := D2iAll(elem, s, indefinite);
            && r.error == NestedError && r.at <= |s|
            && Elements(elem, s, r.at) && D2i(elem, Null, s[r.at..]).Err?
    decreases |s|
  {
    hide D2i;
    var r := D2i(elem, Null, s);
    if r.Ok? {
      ElementError(elem, s[r.used..], indefinite);
      var at := D2iAll(elem, s[r.used..], indefinite).at;
      assert s[r.used..][at..] == s[r.used + at..];
    } else {
      assert s[0..] == s;
    }
  }
}
