/**
 Decoding undoes encoding, for every schema whose optional fields can be told apart.
 */
module Asn1RoundTrip {
  import opened Wrappers
  import opened X690
  import opened Asn1Schema
  import opened Asn1Encoding
  import opened Asn1Decoding
  import opened Asn1Merge

  // ----- what comes back, as a merge -----

  /** The octets behind a field list: nothing, or the end-of-contents octets. */
  predicate Terminal(rest: seq<byte>) {
    rest == [] || rest[0] == 0
  }

  lemma {:induction false} MergeTrip(t: Type, prior: Value, v: Value, rest: seq<byte>)
    requires Distinct(t) && Fits(t, v) && |I2d(t, v)| <= INT_MAX
    ensures D2i(t, prior, I2d(t, v) + rest) == Ok(Merge(t, prior, v), |I2d(t, v)|)
    decreases t, 0
  {
    hide D2iPrim;
    hide D2iRec;
    hide D2iColl;
    hide Wrap;
    match t
    case Prim(tag) => MergeTripPrim(tag, prior, v, rest);
    case Rec(fs, indefinite) => MergeTripRec(fs, indefinite, prior, v, rest);
    case Loop(elem, indefinite) => MergeTripColl(elem, TypeIdent(t), indefinite, v.elems, rest);
  }

  lemma MergeTripPrim(tag: PrimTag, prior: Value, v: Value, rest: seq<byte>)
    requires v.Octets? && |Wrap(tag, false, v.content)| <= INT_MAX
    ensures var w := Wrap(tag, false, v.content);
            D2iPrim(tag, prior, w + rest) == Ok(v, |w|)
  {
    ReadWrapped(tag, false, v.content, rest);
  }

  lemma {:induction false} MergeTripRec(fs: Fields, indefinite: bool, prior: Value, v: Value, rest: seq<byte>)
    requires FieldsDistinct(fs) && v.Record? && FieldsFit(fs, v.fields)
    requires |Wrap(SEQUENCE_IDENT, indefinite, I2dFields(fs, v.fields))| <= INT_MAX
    ensures var w := Wrap(SEQUENCE_IDENT, indefinite, I2dFields(fs, v.fields));
            D2iRec(fs, prior, w + rest)
              == Ok(Record(MergeFields(fs, StartFields(fs, prior), v.fields)), |w|)
    decreases fs, 1
  {
    hide ReadHeader;
    hide Wrap;
    hide I2dFields;
    hide D2iFields;
    hide MergeFields;
    var body := I2dFields(fs, v.fields);
    var s := Wrap(SEQUENCE_IDENT, indefinite, body) + rest;
    ReadWrapped(SEQUENCE_IDENT, indefinite, body, rest);
    var tail := if indefinite then EOC + rest else [];
    assert Contents(s, ReadHeader(s).value) == body + tail;
    MergeTripFields(fs, StartFields(fs, prior), v.fields, tail);
    assert (body + tail)[|body|..] == tail;
  }

  lemma {:induction false} MergeTripColl(elem: Type, ident: byte, indefinite: bool, vs: seq<Value>, rest: seq<byte>)
    requires Distinct(elem) && AllFit(elem, vs)
    requires ident % 32 != PRIMITIVE_TAG && IsConstructed(ident)
    requires |Wrap(ident, indefinite, I2dAll(elem, vs))| <= INT_MAX
    ensures var w := Wrap(ident, indefinite, I2dAll(elem, vs));
            D2iColl(elem, ident, w + rest) == AllOk(MergeAll(elem, vs), |w|)
    decreases elem, 2
  {
    hide ReadHeader;
    hide Wrap;
    hide D2iAll;
    hide I2dAll;
    hide MergeAll;
    var body := I2dAll(elem, vs);
    ReadWrapped(ident, indefinite, body, rest);
    MergeTripAll(elem, vs, indefinite, rest);
    assert body + [] == body;
  }

  lemma {:induction false} MergeTripAll(elem: Type, vs: seq<Value>, indefinite: bool, rest: seq<byte>)
    requires Distinct(elem) && AllFit(elem, vs)
    requires |I2dAll(elem, vs)| <= INT_MAX
    ensures var tail := if indefinite then EOC + rest else [];
            D2iAll(elem, I2dAll(elem, vs) + tail, indefinite)
              == AllOk(MergeAll(elem, vs), |I2dAll(elem, vs)| + if indefinite then 2 else 0)
    decreases elem, 1, |vs|
  {
    hide D2i;
    hide D2iAll;
    hide I2d;
    hide Merge;
    var tail := if indefinite then EOC + rest else [];
    if vs == [] {
      NoElements(elem, indefinite, rest);
      assert I2dAll(elem, vs) + tail == tail;
    } else {
      var e, more := I2d(elem, vs[0]), I2dAll(elem, vs[1..]) + tail;
      assert I2dAll(elem, vs) + tail == e + more;
      I2dStarts(elem, vs[0]);
      assert (e + more)[|e|..] == more;
      MergeTrip(elem, Null, vs[0], more);
      assert AllFit(elem, vs[1..]);
      MergeTripAll(elem, vs[1..], indefinite, rest);
      OneMoreElement(elem, e + more, indefinite);
    }
  }

  lemma NoElements(elem: Type, indefinite: bool, rest: seq<byte>)
    ensures var tail := if indefinite then EOC + rest else [];
            D2iAll(elem, tail, indefinite) == AllOk([], if indefinite then 2 else 0)
  {
  }

  lemma OneMoreElement(elem: Type, s: seq<byte>, indefinite: bool)
    requires s != [] && s[0] != 0 && D2i(elem, Null, s).Ok?
    requires D2iAll(elem, s[D2i(elem, Null, s).used..], indefinite).AllOk?
    ensures var r := D2i(elem, Null, s);
            var more := D2iAll(elem, s[r.used..], indefinite);
            D2iAll(elem, s, indefinite) == AllOk([r.value] + more.values, r.used + more.used)
  {
    hide D2i;
  }

  lemma {:induction false} MergeTripField(f: Field, prior: Value, v: Value, rest: seq<byte>)
    requires FieldDistinct(f) && FieldFits(f, v) && !Omitted(f, v)
    requires |I2dField(f, v)| <= INT_MAX
    ensures D2iField(f, prior, I2dField(f, v) + rest) == Ok(MergeField(f, prior, v), |I2dField(f, v)|)
    decreases f, 0
  {
    hide D2i;
    hide I2d;
    hide Merge;
    hide D2iColl;
    hide ReadHeader;
    hide Wrap;
    var w := I2dField(f, v);
    var s := w + rest;
    I2dFieldStarts(f, v);
    assert s[0] == FieldIdent(f) && !Skips(f, s);
    match f
    case Plain(t) => MergeTrip(t, prior, v, rest);
    case Opt(t) => MergeTrip(t, prior, v, rest);
    case ImpOpt(t, tag) =>
      I2dStarts(t, v);
      MergeTrip(t, prior, v, rest);
      assert Rewritten(t, s) == I2d(t, v) + rest;
    case ExpOpt(t, tag, indefinite) => MergeTripExpOpt(t, tag, indefinite, prior, v, rest);
    case Coll(elem, isSet, tagging, _) => MergeTripSetOf(elem, isSet, tagging, v.elems, rest);
    case ExpColl(elem, isSet, tag) => MergeTripExpColl(elem, isSet, tag, prior, v.elems, rest);
  }

  lemma {:induction false} MergeTripSetOf(elem: Type, isSet: bool, tagging: Tagging, vs: seq<Value>, rest: seq<byte>)
    requires Distinct(elem) && AllFit(elem, vs)
    requires |I2dColl(elem, isSet, tagging, vs)| <= INT_MAX
    ensures var w := I2dColl(elem, isSet, tagging, vs);
            D2iColl(elem, CollIdent(isSet, tagging), w + rest)
              == AllOk(MergeAll(elem, Arrange(elem, isSet, vs)), |w|)
    decreases elem, 3
  {
    ArrangeFits(elem, isSet, vs);
    MergeTripColl(elem, CollIdent(isSet, tagging), false, Arrange(elem, isSet, vs), rest);
  }

  lemma {:induction false} MergeTripExpOpt(
    t: Type, tag: CtxTag, indefinite: bool, prior: Value, v: Value, rest: seq<byte>)
    requires Distinct(t) && Fits(t, v)
    requires |Wrap(ExplicitIdent(tag), indefinite, I2d(t, v))| <= INT_MAX
    ensures var w := Wrap(ExplicitIdent(tag), indefinite, I2d(t, v));
            var r := ReadHeader(w + rest);
            && r.Some?
            && Closing(r.value, w + rest, prior, Nested(D2i(t, prior, ExpBudget(w + rest, r.value))))
                 == Ok(Merge(t, prior, v), |w|)
    decreases t, 1
  {
    hide D2i;
    hide I2d;
    hide Merge;
    hide ReadHeader;
    hide Wrap;
    var inner := I2d(t, v);
    var s := Wrap(ExplicitIdent(tag), indefinite, inner) + rest;
    ReadWrapped(ExplicitIdent(tag), indefinite, inner, rest);
    if indefinite {
      OpenBudget(ExplicitIdent(tag), inner, rest);
      WrapOpen(ExplicitIdent(tag), inner);
      MergeTrip(t, prior, v, (EOC + rest)[..|rest|]);
    } else {
      assert ExpBudget(s, ReadHeader(s).value) == inner + [];
      MergeTrip(t, prior, v, []);
    }
  }

  lemma WrapOpen(ident: byte, body: seq<byte>)
    ensures |Wrap(ident, true, body)| == |body| + 4
  {
  }

  /** The closing octets of the indefinite explicit form lie outside what `func` may read. */
  lemma OpenBudget(ident: byte, e: seq<byte>, rest: seq<byte>)
    requires IsConstructed(ident) && ident % 32 != PRIMITIVE_TAG
    ensures var s := Wrap(ident, true, e) + rest;
            && ReadHeader(s) == Some(Header(true, 2, 0))
            && ExpBudget(s, Header(true, 2, 0)) == e + (EOC + rest)[..|rest|]
            && s[2 + |e|..] == EOC + rest
  {
    ReadOpen(ident, e, rest);
    hide ReadHeader;
    var s := Wrap(ident, true, e) + rest;
    assert s[2..|s| - 2] == s[2..][..|s| - 4] == e + (EOC + rest)[..|rest|];
    assert s[2 + |e|..] == s[2..][|e|..];
  }

  lemma {:induction false} MergeTripExpColl(
    elem: Type, isSet: bool, tag: CtxTag, prior: Value, vs: seq<Value>, rest: seq<byte>)
    requires Distinct(elem) && AllFit(elem, vs)
    requires |Wrap(ExplicitIdent(tag), false, I2dColl(elem, isSet, Universal, vs))| <= INT_MAX
    ensures var w := Wrap(ExplicitIdent(tag), false, I2dColl(elem, isSet, Universal, vs));
            var r := ReadHeader(w + rest);
            && r.Some?
            && Closing(r.value, w + rest, prior,
                       NestedColl(prior, D2iColl(elem, CollIdent(isSet, Universal), ExpBudget(w + rest, r.value))))
                 == Ok(Stack(MergeAll(elem, Arrange(elem, isSet, vs))), |w|)
    decreases elem, 4
  {
    hide D2iColl;
    hide I2dColl;
    hide ReadHeader;
    hide Wrap;
    var inner := I2dColl(elem, isSet, Universal, vs);
    var s := Wrap(ExplicitIdent(tag), false, inner) + rest;
    ReadWrapped(ExplicitIdent(tag), false, inner, rest);
    assert ExpBudget(s, ReadHeader(s).value) == inner + [];
    MergeTripSetOf(elem, isSet, Universal, vs, []);
  }

  /** Behind an omitted field, the next octet is never taken for that field. */
  lemma {:induction false} OmittedIsSkipped(f: Field, fs: Fields, vs: seq<Value>, rest: seq<byte>)
    requires MayOmit(f) && Clear(f, fs) && FieldsFit(fs, vs) && Terminal(rest)
    ensures Skips(f, I2dFields(fs, vs) + rest)
  {
    match fs
    case FNil =>
      assert I2dFields(fs, vs) + rest == rest;
    case FCons(g, more) =>
      I2dFieldStarts(g, vs[0]);
      if Omitted(g, vs[0]) {
        OmittedIsSkipped(f, more, vs[1..], rest);
        assert I2dFields(fs, vs) + rest == I2dFields(more, vs[1..]) + rest;
      }
  }

  lemma {:induction false} MergeTripFields(fs: Fields, prior: seq<Value>, vs: seq<Value>, rest: seq<byte>)
    requires FieldsDistinct(fs) && FieldsFit(fs, vs) && |prior| == Count(fs)
    requires |I2dFields(fs, vs)| <= INT_MAX && Terminal(rest)
    ensures var r := D2iFields(fs, prior, I2dFields(fs, vs) + rest);
            r.FieldsOk? && r.values == MergeFields(fs, prior, vs) && r.used == |I2dFields(fs, vs)|
    decreases fs, 0
  {
    match fs
    case FNil =>
    case FCons(f, more) =>
      var e := I2dField(f, vs[0]);
      var tail := I2dFields(more, vs[1..]) + rest;
      assert I2dFields(fs, vs) + rest == e + tail;
      assert (e + tail)[|e|..] == tail;
      I2dFieldStarts(f, vs[0]);
      if Omitted(f, vs[0]) {
        OmittedIsSkipped(f, more, vs[1..], rest);
      } else {
        MergeTripField(f, prior[0], vs[0], tail);
      }
      MergeTripFields(more, prior[1..], vs[1..], rest);
  }

  // ----- what comes back, as the value -----

  /** Decoding undoes encoding: a canonical value comes back as it was, and no other value
      does; what was written is used up, whatever follows. */
  lemma RoundTrip(t: Type, v: Value, rest: seq<byte>)
    requires Distinct(t) && Fits(t, v) && |I2d(t, v)| <= INT_MAX
    ensures var r := D2i(t, Null, I2d(t, v) + rest);
            r.Ok? && r.used == |I2d(t, v)| && (r.value == v <==> Canon(t, v))
  {
    hide D2i;
    hide I2d;
    hide Canon;
    MergeTrip(t, Null, v, rest);
    MergeIdentity(t, v);
  }

  /** A field list behind its own put macros, inside either form of sequence. */
  lemma RoundTripFields(fs: Fields, vs: seq<Value>, rest: seq<byte>)
    requires FieldsDistinct(fs) && FieldsFit(fs, vs)
    requires |I2dFields(fs, vs)| <= INT_MAX && Terminal(rest)
    ensures var r := D2iFields(fs, NewFields(fs), I2dFields(fs, vs) + rest);
            r.FieldsOk? && r.used == |I2dFields(fs, vs)| && (r.values == vs <==> CanonFields(fs, vs))
  {
    hide D2iFields;
    hide I2dFields;
    hide CanonFields;
    MergeTripFields(fs, NewFields(fs), vs, rest);
    MergeFieldsIdentity(fs, vs);
  }

  /** A field that was written is read back whatever follows it. */
  lemma RoundTripField(f: Field, v: Value, rest: seq<byte>)
    requires FieldDistinct(f) && FieldFits(f, v) && !Omitted(f, v)
    requires |I2dField(f, v)| <= INT_MAX
    ensures var r := D2iField(f, NewField(f), I2dField(f, v) + rest);
            r.Ok? && r.used == |I2dField(f, v)| && (r.value == v <==> CanonField(f, v))
  {
    hide D2iField;
    hide I2dField;
    hide CanonField;
    MergeTripField(f, NewField(f), v, rest);
    MergeFieldIdentity(f, v);
  }

  /** An explicit field, in the definite form and in the indefinite form. */
  lemma RoundTripExplicit(t: Type, tag: CtxTag, indefinite: bool, v: Value, rest: seq<byte>)
    requires Distinct(t) && Fits(t, v)
    requires |Wrap(ExplicitIdent(tag), indefinite, I2d(t, v))| <= INT_MAX
    ensures var w := Wrap(ExplicitIdent(tag), indefinite, I2d(t, v));
            var r := D2iField(ExpOpt(t, tag, indefinite), Null, w + rest);
            r.Ok? && r.used == |w| && (r.value == v <==> Canon(t, v))
  {
    hide D2iField;
    hide I2d;
    hide Canon;
    var f := ExpOpt(t, tag, indefinite);
    assert v != Null;
    assert I2dField(f, v) == Wrap(ExplicitIdent(tag), indefinite, I2d(t, v));
    RoundTripField(f, v, rest);
  }

  /** The loop on `M_ASN1_D2I_end_sequence` reads the elements that were written and stops
      just past them and the two zero octets that close the indefinite form. */
  lemma RoundTripAll(elem: Type, vs: seq<Value>, indefinite: bool, rest: seq<byte>)
    requires Distinct(elem) && AllFit(elem, vs) && |I2dAll(elem, vs)| <= INT_MAX
    ensures var tail := if indefinite then EOC + rest else [];
            var r := D2iAll(elem, I2dAll(elem, vs) + tail, indefinite);
            && r.AllOk? && r.used == |I2dAll(elem, vs)| + (if indefinite then 2 else 0)
            && (r.values == vs <==> CanonAll(elem, vs))
  {
    hide D2iAll;
    hide I2dAll;
    hide CanonAll;
    MergeTripAll(elem, vs, indefinite, rest);
    MergeAllIdentity(elem, vs);
  }

  /** A value that does not come back: an empty stack under an `_opt` macro is not written. */
  lemma EmptyComesBackAbsent()
    ensures var t := Rec(FCons(Coll(Prim(4), false, Universal, true), FNil), false);
            var v := Record([Stack([])]);
            && Fits(t, v) && I2d(t, v) == [0x30, 0]
            && D2i(t, Null, I2d(t, v)) == Ok(Record([Null]), 2)
  {
    hide D2i;
    var fs := FCons(Coll(Prim(4), false, Universal, true), FNil);
    EmptyIsOmitted(fs, Stack([]));
    ReadsAbsent(fs, [0x30, 0]);
    hide I2dFields;
  }

  lemma EmptyIsOmitted(fs: Fields, v: Value)
    requires fs == FCons(Coll(Prim(4), false, Universal, true), FNil) && v == Stack([])
    ensures FieldsFit(fs, [v]) && I2dFields(fs, [v]) == []
  {
    assert [v][1..] == [];
  }

  lemma ReadsAbsent(fs: Fields, s: seq<byte>)
    requires fs == FCons(Coll(Prim(4), false, Universal, true), FNil) && s == [0x30, 0]
    ensures D2i(Rec(fs, false), Null, s) == Ok(Record([Null]), 2)
  {
    assert ReadHeader(s) == Some(Header(false, 2, 0)) && s[2..2] == [];
    NothingPresent(fs);
    hide ReadHeader;
    hide D2iFields;
    RecStep(fs, Null, s);
  }

  lemma NothingPresent(fs: Fields)
    requires fs == FCons(Coll(Prim(4), false, Universal, true), FNil)
    ensures D2iFields(fs, NewFields(fs), []) == FieldsOk([Null], 0, None)
  {
    hide D2iColl;
    assert NewFields(fs) == [Null];
    FieldsStep(fs, [Null], []);
    assert D2iFields(FNil, [], []) == FieldsOk([], 0, None);
    hide D2iFields;
  }
}
