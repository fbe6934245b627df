/**
 What the I2D macros write is a well-formed data value by X.690 sections 8.1.2 to 8.1.5,
 at every nesting depth. The reader here knows no schema: it follows headers only.
 */
module Asn1Framing {
  import opened Wrappers
  import opened X690
  import opened Asn1Schema
  import opened Asn1Encoding
  import opened Asn1Decoding

  /** The size of the data value that `s` starts with. A constructed value must itself be a
      series of data values that fills its declared length, or runs to the two zero octets. */
  function Tlv(s: seq<byte>): (r: Option<nat>)
    ensures r.Some? ==> 2 <= r.value <= |s|
    decreases |s|, 0
  {
    match ReadHeader(s)
    case None => None
    case Some(h) =>
      if !IsConstructed(s[0]) then Some(h.size + h.length)
      else match Tlvs(Contents(s, h), h.indefinite)
        case None => None
        case Some(n) => Some(h.size + n)
  }

  function Tlvs(s: seq<byte>, indefinite: bool): (r: Option<nat>)
    ensures r.Some? ==> r.value <= |s|
    ensures r.Some? && !indefinite ==> r.value == |s|
    decreases |s|, 1
  {
    if EndSequence(s, indefinite) then Some(if indefinite then 2 else 0)
    else match Tlv(s)
      case None => None
      case Some(n) =>
        Shifted(n, Tlvs(s[n..], indefinite))
  }

  function Shifted(n: nat, r: Option<nat>): Option<nat> {
    match r
    case None => None
    case Some(m) => Some(n + m)
  }

  /** `s` is one complete data value, whatever follows it. */
  ghost predicate IsTlv(s: seq<byte>) {
    s != [] && s[0] != 0 && forall rest :: Tlv(s + rest) == Some(|s|)
  }

  /** `s` is a series of complete data values, whatever follows it. */
  ghost predicate AreTlvs(s: seq<byte>) {
    forall rest, indefinite ::
      Tlvs(s + rest, indefinite) == Shifted(|s|, Tlvs(rest, indefinite))
  }

  lemma NoTlvs()
    ensures AreTlvs([])
  {
    forall rest, indefinite: bool
      ensures Tlvs([] + rest, indefinite) == Shifted(0, Tlvs(rest, indefinite))
    {
      assert [] + rest == rest;
    }
  }

  lemma OneMoreTlv(s: seq<byte>, t: seq<byte>)
    requires IsTlv(s) && AreTlvs(t)
    ensures AreTlvs(s + t)
  {
    hide Tlv;
    hide Tlvs;
    forall rest, indefinite: bool
      ensures Tlvs(s + t + rest, indefinite) == Shifted(|s + t|, Tlvs(rest, indefinite))
    {
      assert s + t + rest == s + (t + rest);
      TlvThen(s, t + rest, indefinite);
      assert Tlvs(t + rest, indefinite) == Shifted(|t|, Tlvs(rest, indefinite));
    }
  }

  lemma TlvThen(s: seq<byte>, rest: seq<byte>, indefinite: bool)
    requires IsTlv(s)
    ensures Tlvs(s + rest, indefinite) == Shifted(|s|, Tlvs(rest, indefinite))
  {
    hide Tlv;
    assert Tlv(s + rest) == Some(|s|);
    assert (s + rest)[|s|..] == rest;
  }

  lemma SingleTlv(s: seq<byte>)
    requires IsTlv(s)
    ensures AreTlvs(s)
  {
    NoTlvs();
    OneMoreTlv(s, []);
    assert s + [] == s;
  }

  /** A constructed header around a series of data values is a data value. */
  lemma WrapIsTlv(ident: byte, indefinite: bool, body: seq<byte>)
    requires IsConstructed(ident) && ident % 32 != PRIMITIVE_TAG && AreTlvs(body)
    requires |Wrap(ident, indefinite, body)| <= INT_MAX
    ensures IsTlv(Wrap(ident, indefinite, body))
  {
    hide ReadHeader;
    var w := Wrap(ident, indefinite, body);
    forall rest ensures Tlv(w + rest) == Some(|w|) {
      ReadWrapped(ident, indefinite, body, rest);
      var s := w + rest;
      var h := ReadHeader(s).value;
      var tail := if indefinite then EOC + rest else [];
      assert Contents(s, h) == body + tail;
      assert Tlvs(tail, indefinite) == Some(if indefinite then 2 else 0);
    }
  }

  lemma PrimIsTlv(tag: PrimTag, content: seq<byte>)
    requires |Wrap(tag, false, content)| <= INT_MAX
    ensures IsTlv(Wrap(tag, false, content))
  {
    hide ReadHeader;
    var w := Wrap(tag, false, content);
    forall rest ensures Tlv(w + rest) == Some(|w|) {
      ReadWrapped(tag, false, content, rest);
    }
  }

  /** Replacing the tag but not the constructed bit keeps the framing. */
  lemma RetagIsTlv(s: seq<byte>, tag: CtxTag)
    requires IsTlv(s)
    ensures IsTlv(Retag(s, tag))
  {
    var r := Retag(s, tag);
    forall rest ensures Tlv(r + rest) == Some(|r|) {
      assert r + rest == (s + rest)[0 := r[0]];
      assert Tlv(s + rest) == Some(|s|);
      SameFraming(s + rest, r[0]);
    }
  }

  lemma SameFraming(s: seq<byte>, ident: byte)
    requires s != [] && ident % 32 != PRIMITIVE_TAG && s[0] % 32 != PRIMITIVE_TAG
    requires IsConstructed(ident) == IsConstructed(s[0])
    ensures Tlv(s[0 := ident]) == Tlv(s)
  {
    var r := s[0 := ident];
    assert r[1..] == s[1..];
    assert forall i, j :: 1 <= i <= j <= |s| ==> r[i..j] == s[i..j];
    assert forall i :: 1 <= i <= |s| ==> r[i..] == s[i..];
    assert ReadHeader(r) == ReadHeader(s);
    if ReadHeader(s).Some? {
      var h := ReadHeader(s).value;
      assert Contents(r, h) == Contents(s, h);
    }
  }

  // ----- the encoder -----

  /** Everything `i2d` writes for a well-typed object is one complete data value. */
  lemma {:induction false} EncodingIsTlv(t: Type, v: Value)
    requires Fits(t, v) && |I2d(t, v)| <= INT_MAX
    ensures IsTlv(I2d(t, v))
    decreases t, 0
  {
    hide IsTlv;
    hide AreTlvs;
    match t
    case Prim(tag) => PrimIsTlv(tag, v.content);
    case Rec(fs, indefinite) =>
      FieldsAreTlvs(fs, v.fields);
      WrapIsTlv(TypeIdent(t), indefinite, I2dFields(fs, v.fields));
    case Loop(elem, indefinite) =>
      AllAreTlvs(elem, v.elems);
      WrapIsTlv(TypeIdent(t), indefinite, I2dAll(elem, v.elems));
  }

  lemma {:induction false} AllAreTlvs(t: Type, vs: seq<Value>)
    requires AllFit(t, vs) && |I2dAll(t, vs)| <= INT_MAX
    ensures AreTlvs(I2dAll(t, vs))
    decreases t, 1, |vs|
  {
    hide IsTlv;
    hide AreTlvs;
    hide I2d;
    if vs == [] {
      NoTlvs();
    } else {
      EncodingIsTlv(t, vs[0]);
      AllAreTlvs(t, vs[1..]);
      OneMoreTlv(I2d(t, vs[0]), I2dAll(t, vs[1..]));
    }
  }

  lemma {:induction false} CollIsTlv(elem: Type, isSet: bool, tagging: Tagging, vs: seq<Value>)
    requires AllFit(elem, vs) && |I2dColl(elem, isSet, tagging, vs)| <= INT_MAX
    ensures IsTlv(I2dColl(elem, isSet, tagging, vs))
    decreases elem, 2
  {
    hide IsTlv;
    hide AreTlvs;
    ArrangeFits(elem, isSet, vs);
    AllAreTlvs(elem, Arrange(elem, isSet, vs));
    WrapIsTlv(CollIdent(isSet, tagging), false, I2dAll(elem, Arrange(elem, isSet, vs)));
  }

  /** The header that an explicit put macro writes from the saved `v` declares exactly the
      octets written after it, and those are a data value again. */
  lemma {:induction false} FieldIsTlv(f: Field, v: Value)
    requires FieldFits(f, v) && !Omitted(f, v) && |I2dField(f, v)| <= INT_MAX
    ensures IsTlv(I2dField(f, v))
    decreases f, 0
  {
    hide IsTlv;
    hide AreTlvs;
    hide I2d;
    match f
    case Plain(t) => EncodingIsTlv(t, v);
    case Opt(t) => EncodingIsTlv(t, v);
    case ImpOpt(t, tag) =>
      EncodingIsTlv(t, v);
      RetagIsTlv(I2d(t, v), tag);
    case ExpOpt(t, tag, indefinite) =>
      EncodingIsTlv(t, v);
      SingleTlv(I2d(t, v));
      WrapIsTlv(ExplicitIdent(tag), indefinite, I2d(t, v));
    case Coll(elem, isSet, tagging, _) => CollIsTlv(elem, isSet, tagging, v.elems);
    case ExpColl(elem, isSet, tag) =>
      CollIsTlv(elem, isSet, Universal, v.elems);
      SingleTlv(I2dColl(elem, isSet, Universal, v.elems));
      WrapIsTlv(ExplicitIdent(tag), false, I2dColl(elem, isSet, Universal, v.elems));
  }

  lemma {:induction false} FieldsAreTlvs(fs: Fields, vs: seq<Value>)
    requires FieldsFit(fs, vs) && |I2dFields(fs, vs)| <= INT_MAX
    ensures AreTlvs(I2dFields(fs, vs))
    decreases fs, 0
  {
    hide IsTlv;
    hide AreTlvs;
    hide I2dField;
    match fs
    case FNil => NoTlvs();
    case FCons(f, more) =>
      FieldsAreTlvs(more, vs[1..]);
      I2dFieldStarts(f, vs[0]);
      if Omitted(f, vs[0]) {
        assert I2dFields(fs, vs) == I2dFields(more, vs[1..]);
      } else {
        FieldIsTlv(f, vs[0]);
        OneMoreTlv(I2dField(f, vs[0]), I2dFields(more, vs[1..]));
      }
  }
}
