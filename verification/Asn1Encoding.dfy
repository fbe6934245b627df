/**
 What the I2D macros write, as octet strings. The encoder of module Asn1Encoder is
 proved to produce exactly these octets.
 */
module Asn1Encoding {
  import opened Wrappers
  import opened X690
  import opened Asn1Schema

  // ----- the order of a SET OF -----

  /** Ascending order of encodings, as X.690 section 11.6 asks of a SET OF. */
  predicate OctetsLe(a: seq<byte>, b: seq<byte>) {
    a == [] || (b != [] && (a[0] < b[0] || (a[0] == b[0] && OctetsLe(a[1..], b[1..]))))
  }

  function Insert(t: Type, v: Value, vs: seq<Value>): (r: seq<Value>)
    ensures |r| == |vs| + 1 && multiset(r) == multiset(vs) + multiset{v}
    decreases t, 1, |vs|
  {
    if vs == [] || OctetsLe(I2d(t, v), I2d(t, vs[0])) then
      [v] + vs
    else
      assert vs == [vs[0]] + vs[1..];
      [vs[0]] + Insert(t, v, vs[1..])
  }

  function Sort(t: Type, vs: seq<Value>): (r: seq<Value>)
    ensures |r| == |vs| && multiset(r) == multiset(vs)
    decreases t, 2, |vs|
  {
    if vs == [] then []
    else
      assert vs == [vs[0]] + vs[1..];
      Insert(t, vs[0], Sort(t, vs[1..]))
  }

  /** The order in which `i2d_ASN1_SET` writes the elements: IS_SET or IS_SEQUENCE. */
  function Arrange(t: Type, isSet: bool, vs: seq<Value>): (r: seq<Value>)
    ensures |r| == |vs| && multiset(r) == multiset(vs)
    decreases t, 3
  {
    if isSet then Sort(t, vs) else vs
  }

  // ----- encodings -----

  /** `i2d_X(v, &p)`; a NULL pointer writes nothing. */
  function I2d(t: Type, v: Value): seq<byte>
    decreases t, 0
  {
    match t
    case Prim(tag) =>
      if v.Octets? then Wrap(tag, false, v.content) else []
    case Rec(fs, indefinite) =>
      if v.Record? then Wrap(TypeIdent(t), indefinite, I2dFields(fs, v.fields)) else []
    case Loop(elem, indefinite) =>
      if v.Stack? then Wrap(TypeIdent(t), indefinite, I2dAll(elem, v.elems)) else []
  }

  function I2dAll(t: Type, vs: seq<Value>): seq<byte>
    decreases t, 1, |vs|
  {
    if vs == [] then [] else I2d(t, vs[0]) + I2dAll(t, vs[1..])
  }

  /** `i2d_ASN1_SET(vs, &p, f, tag, class, is_set)` */
  function I2dColl(elem: Type, isSet: bool, tagging: Tagging, vs: seq<Value>): seq<byte>
    decreases elem, 4
  {
    Wrap(CollIdent(isSet, tagging), false, I2dAll(elem, Arrange(elem, isSet, vs)))
  }

  /** `*q = V_ASN1_CONTEXT_SPECIFIC|t|(*q & V_ASN1_CONSTRUCTED)` on an encoding that starts at q. */
  function Retag(s: seq<byte>, tag: CtxTag): seq<byte> {
    if s == [] then [] else s[0 := CONTEXT_SPECIFIC + tag + ConstructedBit(s[0])]
  }

  function I2dField(f: Field, v: Value): seq<byte> {
    if Omitted(f, v) then []
    else match f
      case Plain(t) => I2d(t, v)
      case Opt(t) => I2d(t, v)
      case ImpOpt(t, tag) => Retag(I2d(t, v), tag)
      case ExpOpt(t, tag, indefinite) =>
        Wrap(ExplicitIdent(tag), indefinite, I2d(t, v))
      case Coll(elem, isSet, tagging, _) =>
        if v.Stack? then I2dColl(elem, isSet, tagging, v.elems) else []
      case ExpColl(elem, isSet, tag) =>
        if v.Stack?
        then Wrap(ExplicitIdent(tag), false, I2dColl(elem, isSet, Universal, v.elems))
        else []
  }

  function I2dFields(fs: Fields, vs: seq<Value>): seq<byte> {
    match fs
    case FNil => []
    case FCons(f, rest) => if vs == [] then [] else I2dField(f, vs[0]) + I2dFields(rest, vs[1..])
  }

  // ----- first octets -----

  lemma I2dStarts(t: Type, v: Value)
    requires Fits(t, v)
    ensures |I2d(t, v)| >= 2 && I2d(t, v)[0] == TypeIdent(t)
  {
  }

  lemma I2dFieldStarts(f: Field, v: Value)
    requires FieldFits(f, v)
    ensures Omitted(f, v) ==> I2dField(f, v) == [] && MayOmit(f)
    ensures !Omitted(f, v) ==> |I2dField(f, v)| >= 2 && I2dField(f, v)[0] == FieldIdent(f)
  {
    match f
    case Plain(t) => I2dStarts(t, v);
    case Opt(t) => if !v.Null? { I2dStarts(t, v); }
    case ImpOpt(t, _) => if !v.Null? { I2dStarts(t, v); }
    case _ =>
  }

  lemma ArrangeFits(t: Type, isSet: bool, vs: seq<Value>)
    requires AllFit(t, vs)
    ensures AllFit(t, Arrange(t, isSet, vs))
  {
    var ws := Arrange(t, isSet, vs);
    forall i | 0 <= i < |ws| ensures Fits(t, ws[i]) {
      assert ws[i] in multiset(vs);
    }
  }
}
