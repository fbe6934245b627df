/**
 What holds of a decode that starts from arbitrary octets, and of the encodings as a code.
 */
module Asn1Laws {
  import opened Wrappers
  import opened X690
  import opened Asn1Schema
  import opened Asn1Encoding
  import opened Asn1Decoding
  import opened Asn1Merge
  import opened Asn1RoundTrip

  // ----- unique decoding -----

  /** No encoding is a proper prefix of another one, and equal octets mean equal values. */
  lemma PrefixFree(t: Type, v: Value, w: Value, r1: seq<byte>, r2: seq<byte>)
    requires Distinct(t) && Fits(t, v) && Fits(t, w)
    requires |I2d(t, v)| <= INT_MAX && |I2d(t, w)| <= INT_MAX
    requires I2d(t, v) + r1 == I2d(t, w) + r2
    ensures I2d(t, v) == I2d(t, w) && r1 == r2
    ensures Canon(t, v) && Canon(t, w) ==> v == w
  {
    hide I2d;
    hide D2i;
    hide Canon;
    var a, b := I2d(t, v), I2d(t, w);
    RoundTrip(t, v, r1);
    RoundTrip(t, w, r2);
    assert (a + r1)[..|a|] == a && (b + r2)[..|b|] == b;
    assert (a + r1)[|a|..] == r1 && (b + r2)[|b|..] == r2;
  }

  /** What comes back from the octets of any value, canonical or not, is the one canonical
      value with those octets. */
  lemma Reencode(t: Type, v: Value)
    requires Distinct(t) && Fits(t, v) && |I2d(t, v)| <= INT_MAX
    ensures var r := D2i(t, Null, I2d(t, v));
            && r.Ok? && r.used == |I2d(t, v)|
            && Fits(t, r.value) && Canon(t, r.value) && I2d(t, r.value) == I2d(t, v)
    ensures forall w ::
      Fits(t, w) && Canon(t, w) && I2d(t, w) == I2d(t, v) ==> w == D2i(t, Null, I2d(t, v)).value
  {
    hide D2i;
    hide I2d;
    hide Canon;
    hide Fits;
    hide Merge;
    var octets := I2d(t, v);
    assert octets + [] == octets;
    MergeTrip(t, Null, v, []);
    MergeReencodes(t, v);
    RoundTrip(t, Merge(t, Null, v), []);
    forall w | Fits(t, w) && Canon(t, w) && I2d(t, w) == octets
      ensures w == D2i(t, Null, octets).value
    {
      RoundTrip(t, w, []);
    }
  }

  // ----- decoding arbitrary octets -----

  lemma {:induction false} NewFits(t: Type)
    ensures Fits(t, New(t))
    decreases t
  {
    match t
    case Rec(fs, _) => NewFieldsFit(fs);
    case _ =>
  }

  lemma {:induction false} NewFieldsFit(fs: Fields)
    ensures FieldsFit(fs, NewFields(fs))
    decreases fs
  {
    match fs
    case FNil =>
    case FCons(f, rest) =>
      NewFieldsFit(rest);
      if f.Plain? {
        NewFits(f.t);
      }
  }

  /** Whatever octets are accepted, the result is a complete, well-typed object. */
  lemma {:induction false} DecodedFits(t: Type, prior: Value, s: seq<byte>)
    requires prior.Null? || Fits(t, prior)
    ensures D2i(t, prior, s).Ok? ==> Fits(t, D2i(t, prior, s).value)
    decreases t, 0
  {
    hide ReadHeader;
    match t
    case Prim(_) =>
    case Rec(fs, _) =>
      NewFieldsFit(fs);
      if prior.Record? {
        FieldsFitCount(fs, prior.fields);
      }
      DecodedRecFits(fs, prior, s);
    case Loop(elem, _) => DecodedCollFits(elem, TypeIdent(t), s);
  }

  lemma {:induction false} DecodedRecFits(fs: Fields, prior: Value, s: seq<byte>)
    requires FieldsFit(fs, StartFields(fs, prior))
    ensures var r := D2iRec(fs, prior, s);
            r.Ok? ==> r.value.Record? && FieldsFit(fs, r.value.fields)
    decreases fs, 1
  {
    hide ReadHeader;
    hide D2iFields;
    hide StartFields;
    var h := ReadHeader(s);
    if h.Some? {
      DecodedFieldsFit(fs, StartFields(fs, prior), Contents(s, h.value));
    }
  }

  lemma {:induction false} DecodedCollFits(elem: Type, ident: byte, s: seq<byte>)
    ensures var r := D2iColl(elem, ident, s);
            r.AllOk? ==> AllFit(elem, r.values)
    decreases elem, 2
  {
    hide ReadHeader;
    var h := ReadHeader(s);
    if h.Some? {
      DecodedAllFit(elem, Contents(s, h.value), h.value.indefinite);
    }
  }

  lemma {:induction false} DecodedAllFit(elem: Type, s: seq<byte>, indefinite: bool)
    ensures var r := D2iAll(elem, s, indefinite);
            r.AllOk? ==> AllFit(elem, r.values)
    decreases elem, 1, |s|
  {
    hide D2i;
    hide Fits;
    if !EndSequence(s, indefinite) {
      DecodedFits(elem, Null, s);
      var r := D2i(elem, Null, s);
      if r.Ok? {
        DecodedAllFit(elem, s[r.used..], indefinite);
      }
    }
  }

  lemma {:induction false} DecodedFieldFits(f: Field, prior: Value, s: seq<byte>)
    requires FieldFits(f, prior)
    ensures D2iField(f, prior, s).Ok? ==> FieldFits(f, D2iField(f, prior, s).value)
    decreases f, 0
  {
    hide D2i;
    hide Fits;
    hide ReadHeader;
    hide ExpBudget;
    hide D2iColl;
    if !Skips(f, s) {
      var h := ReadHeader(s);
      match f
      case Plain(t) => DecodedFits(t, prior, s);
      case Opt(t) => DecodedFits(t, prior, s);
      case ImpOpt(t, _) => DecodedFits(t, prior, Rewritten(t, s));
      case ExpOpt(t, _, _) => if h.Some? { DecodedFits(t, prior, ExpBudget(s, h.value)); }
      case Coll(elem, isSet, tagging, _) => DecodedCollFits(elem, CollIdent(isSet, tagging), s);
      case ExpColl(elem, isSet, _) =>
        if h.Some? { DecodedCollFits(elem, CollIdent(isSet, Universal), ExpBudget(s, h.value)); }
    }
  }

  lemma {:induction false} DecodedFieldsFit(fs: Fields, prior: seq<Value>, s: seq<byte>)
    requires FieldsFit(fs, prior) && |prior| == Count(fs)
    ensures var r := D2iFields(fs, prior, s);
            r.FieldsOk? ==> FieldsFit(fs, r.values)
    decreases fs, 0
  {
    hide D2iField;
    hide FieldFits;
    match fs
    case FNil =>
    case FCons(f, rest) =>
      DecodedFieldFits(f, prior[0], s);
      var r := D2iField(f, prior[0], s);
      if r.Ok? {
        DecodedFieldsFit(rest, prior[1..], s[r.used..]);
        var all := D2iFields(fs, prior, s);
        if all.FieldsOk? {
          assert all.values[1..] == D2iFields(rest, prior[1..], s[r.used..]).values;
        }
      }
  }

  /** Decoding any accepted input, whatever form of length it used, and encoding the result
      gives octets that decode in full to a canonical value, which encodes to them again. */
  lemma Canonicalises(t: Type, s: seq<byte>)
    requires Distinct(t) && D2i(t, Null, s).Ok? && |I2d(t, D2i(t, Null, s).value)| <= INT_MAX
    ensures var v := D2i(t, Null, s).value;
            var again := D2i(t, Null, I2d(t, v));
            && Fits(t, v) && again.Ok? && again.used == |I2d(t, v)|
            && I2d(t, again.value) == I2d(t, v)
            && Canon(t, again.value) && (again.value == v <==> Canon(t, v))
  {
    hide D2i;
    hide I2d;
    hide Canon;
    var v := D2i(t, Null, s).value;
    DecodedFits(t, Null, s);
    RoundTrip(t, v, []);
    assert I2d(t, v) + [] == I2d(t, v);
    Reencode(t, v);
  }
}
