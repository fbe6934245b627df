/**
 Distinguishable optional fields are not only enough for the round trip but needed:
 every other schema has a value that does not come back.
 */
module Asn1Distinct {
  import opened Wrappers
  import opened X690
  import opened Asn1Schema
  import opened Asn1Encoding
  import opened Asn1Decoding
  import opened Asn1SetOrder
  import opened Asn1Merge
  import opened Asn1RoundTrip

  /** A value with every field present. */
  function Full(t: Type): (v: Value)
    ensures Fits(t, v)
  {
    match t
    case Prim(_) => Octets([])
    case Rec(fs, _) => Record(FullFields(fs))
    case Loop(_, _) => Stack([])
  }

  function FullField(f: Field): (v: Value)
    ensures FieldFits(f, v) && !Omitted(f, v)
  {
    match f
    case Plain(t) => Full(t)
    case Opt(t) => Full(t)
    case ImpOpt(t, _) => Full(t)
    case ExpOpt(t, _, _) => Full(t)
    case Coll(elem, _, _, _) => Stack([Full(elem)])
    case ExpColl(elem, _, _) => Stack([Full(elem)])
  }

  function FullFields(fs: Fields): (vs: seq<Value>)
    ensures FieldsFit(fs, vs)
  {
    match fs
    case FNil => []
    case FCons(f, rest) => [FullField(f)] + FullFields(rest)
  }

  /** A value that an indistinct schema cannot carry: everything is present, except that one
      optional field is omitted right before a field its guard accepts. */
  function Victim(t: Type): (v: Value)
    ensures Fits(t, v)
  {
    match t
    case Prim(_) => Octets([])
    case Rec(fs, _) => Record(VictimFields(fs))
    case Loop(elem, _) => Stack([Victim(elem)])
  }

  function VictimField(f: Field): (v: Value)
    ensures FieldFits(f, v) && !Omitted(f, v)
  {
    match f
    case Plain(t) => Victim(t)
    case Opt(t) => Victim(t)
    case ImpOpt(t, _) => Victim(t)
    case ExpOpt(t, _, _) => Victim(t)
    case Coll(elem, _, _, _) => Stack([Victim(elem)])
    case ExpColl(elem, _, _) => Stack([Victim(elem)])
  }

  function VictimFields(fs: Fields): (vs: seq<Value>)
    ensures FieldsFit(fs, vs)
  {
    match fs
    case FNil => []
    case FCons(f, rest) =>
      if !FieldDistinct(f) then [VictimField(f)] + FullFields(rest)
      else if MayOmit(f) && !Clear(f, rest) then [Null] + Clash(f, rest)
      else [FullField(f)] + VictimFields(rest)
  }

  /** Omit fields until the first one that the guard of `f` accepts. */
  function Clash(f: Field, fs: Fields): (vs: seq<Value>)
    ensures FieldsFit(fs, vs)
  {
    match fs
    case FNil => []
    case FCons(g, more) =>
      if Guard(f, FieldIdent(g)) || !MayOmit(g) then [FullField(g)] + FullFields(more)
      else [Null] + Clash(f, more)
  }

  // ----- why the victim does not come back -----

  /** `prior` is what a decode into nothing, or into a new object, starts from. */
  predicate Unset(t: Type, prior: Value) {
    prior == Null || prior == New(t)
  }

  lemma {:induction false} ClashStarts(f: Field, fs: Fields, rest: seq<byte>)
    requires !Clear(f, fs)
    ensures var s := I2dFields(fs, Clash(f, fs)) + rest;
            s != [] && Guard(f, s[0])
  {
    match fs
    case FNil =>
    case FCons(g, more) =>
      if Guard(f, FieldIdent(g)) || !MayOmit(g) {
        I2dFieldStarts(g, FullField(g));
      } else {
        ClashStarts(f, more, rest);
        assert I2dFields(fs, Clash(f, fs)) == I2dFields(more, Clash(f, more));
      }
  }

  lemma DecodedIsPresent(f: Field, prior: Value, s: seq<byte>)
    ensures var r := D2iField(f, prior, s);
            r.Ok? && r.used > 0 ==> r.value != Null
  {
  }

  lemma {:induction false} VictimMisread(t: Type, prior: Value, rest: seq<byte>)
    requires !Distinct(t) && Unset(t, prior) && |I2d(t, Victim(t))| <= INT_MAX
    ensures var r := D2i(t, prior, I2d(t, Victim(t)) + rest);
            r.Ok? ==> r.value != Merge(t, prior, Victim(t))
    decreases t, 0
  {
    match t
    case Rec(fs, indefinite) => VictimRecMisread(fs, indefinite, prior, rest);
    case Loop(elem, indefinite) => VictimCollMisread(elem, TypeIdent(t), indefinite, rest);
  }

  lemma {:induction false} VictimRecMisread(fs: Fields, indefinite: bool, prior: Value, rest: seq<byte>)
    requires !FieldsDistinct(fs) && StartFields(fs, prior) == NewFields(fs)
    requires |Wrap(SEQUENCE_IDENT, indefinite, I2dFields(fs, VictimFields(fs)))| <= INT_MAX
    ensures var r := D2iRec(fs, prior, Wrap(SEQUENCE_IDENT, indefinite, I2dFields(fs, VictimFields(fs))) + rest);
            r.Ok? ==> r.value != Record(MergeFields(fs, NewFields(fs), VictimFields(fs)))
    decreases fs, 1
  {
    hide ReadHeader;
    var body := I2dFields(fs, VictimFields(fs));
    var s := Wrap(SEQUENCE_IDENT, indefinite, body) + rest;
    ReadWrapped(SEQUENCE_IDENT, indefinite, body, rest);
    var tail := if indefinite then EOC + rest else [];
    assert Contents(s, ReadHeader(s).value) == body + tail;
    VictimFieldsMisread(fs, tail);
  }

  lemma {:induction false} VictimCollMisread(elem: Type, ident: byte, indefinite: bool, rest: seq<byte>)
    requires !Distinct(elem)
    requires ident % 32 != PRIMITIVE_TAG && IsConstructed(ident)
    requires |Wrap(ident, indefinite, I2dAll(elem, [Victim(elem)]))| <= INT_MAX
    ensures var r := D2iColl(elem, ident, Wrap(ident, indefinite, I2dAll(elem, [Victim(elem)])) + rest);
            r.AllOk? ==> r.values != MergeAll(elem, [Victim(elem)])
    decreases elem, 1
  {
    hide ReadHeader;
    hide D2i;
    hide I2d;
    var e := I2d(elem, Victim(elem));
    var body := I2dAll(elem, [Victim(elem)]);
    assert body == e + [] == e;
    var s := Wrap(ident, indefinite, body) + rest;
    ReadWrapped(ident, indefinite, body, rest);
    var tail := if indefinite then EOC + rest else [];
    assert Contents(s, ReadHeader(s).value) == e + tail;
    I2dStarts(elem, Victim(elem));
    VictimMisread(elem, Null, tail);
    var r := D2iAll(elem, e + tail, indefinite);
    if r.AllOk? {
      assert r.values[0] == D2i(elem, Null, e + tail).value;
      assert MergeAll(elem, [Victim(elem)])[0] == Merge(elem, Null, Victim(elem));
    }
  }

  lemma {:induction false} VictimFieldMisread(f: Field, rest: seq<byte>)
    requires !FieldDistinct(f) && |I2dField(f, VictimField(f))| <= INT_MAX
    ensures var r := D2iField(f, NewField(f), I2dField(f, VictimField(f)) + rest);
            r.Ok? ==> r.value != MergeField(f, NewField(f), VictimField(f))
    decreases f, 0
  {
    hide D2i;
    hide I2d;
    hide Merge;
    hide ReadHeader;
    hide Wrap;
    hide Victim;
    var v := VictimField(f);
    var s := I2dField(f, v) + rest;
    I2dFieldStarts(f, v);
    assert s[0] == FieldIdent(f) && !Skips(f, s);
    match f
    case Plain(t) => VictimMisread(t, New(t), rest);
    case Opt(t) => VictimMisread(t, Null, rest);
    case ImpOpt(t, tag) =>
      I2dStarts(t, v);
      VictimMisread(t, Null, rest);
      assert Rewritten(t, s) == I2d(t, v) + rest;
    case ExpOpt(t, tag, indefinite) => VictimExpMisread(t, tag, indefinite, rest);
    case Coll(elem, isSet, tagging, _) => VictimSetMisread(elem, isSet, tagging, rest);
    case ExpColl(elem, isSet, tag) => VictimExpCollMisread(elem, isSet, tag, rest);
  }

  lemma {:induction false} VictimSetMisread(elem: Type, isSet: bool, tagging: Tagging, rest: seq<byte>)
    requires !Distinct(elem) && |I2dColl(elem, isSet, tagging, [Victim(elem)])| <= INT_MAX
    ensures var vs := [Victim(elem)];
            var r := D2iColl(elem, CollIdent(isSet, tagging), I2dColl(elem, isSet, tagging, vs) + rest);
            r.AllOk? ==> r.values != MergeAll(elem, Arrange(elem, isSet, vs))
    decreases elem, 2
  {
    hide I2d;
    var vs := [Victim(elem)];
    assert Sort(elem, vs) == Insert(elem, vs[0], Sort(elem, [])) == vs;
    VictimCollMisread(elem, CollIdent(isSet, tagging), false, rest);
  }

  lemma {:induction false} VictimExpMisread(t: Type, tag: CtxTag, indefinite: bool, rest: seq<byte>)
    requires !Distinct(t) && |Wrap(ExplicitIdent(tag), indefinite, I2d(t, Victim(t)))| <= INT_MAX
    ensures var s := Wrap(ExplicitIdent(tag), indefinite, I2d(t, Victim(t))) + rest;
            var h := ReadHeader(s);
            && h.Some?
            && var r := Closing(h.value, s, Null, Nested(D2i(t, Null, ExpBudget(s, h.value))));
               r.Ok? ==> r.value != Merge(t, Null, Victim(t))
    decreases t, 1
  {
    hide D2i;
    hide I2d;
    hide Merge;
    var v := Victim(t);
    var inner := I2d(t, v);
    var s := Wrap(ExplicitIdent(tag), indefinite, inner) + rest;
    ReadWrapped(ExplicitIdent(tag), indefinite, inner, rest);
    var h := ReadHeader(s).value;
    if indefinite {
      var after := (EOC + rest)[..|rest|];
      assert s[2..|s| - 2] == s[2..][..|s| - 4] == inner + after;
      I2dStarts(t, v);
      assert ExpBudget(s, h) == inner + after;
      VictimMisread(t, Null, after);
    } else {
      assert ExpBudget(s, h) == inner + [];
      VictimMisread(t, Null, []);
    }
  }

  lemma {:induction false} VictimExpCollMisread(elem: Type, isSet: bool, tag: CtxTag, rest: seq<byte>)
    requires !Distinct(elem)
    requires |Wrap(ExplicitIdent(tag), false, I2dColl(elem, isSet, Universal, [Victim(elem)]))| <= INT_MAX
    ensures var vs := [Victim(elem)];
            var s := Wrap(ExplicitIdent(tag), false, I2dColl(elem, isSet, Universal, vs)) + rest;
            var h := ReadHeader(s);
            && h.Some?
            && var r := Closing(h.value, s, Null,
                                NestedColl(Null, D2iColl(elem, CollIdent(isSet, Universal), ExpBudget(s, h.value))));
               r.Ok? ==> r.value != Stack(MergeAll(elem, Arrange(elem, isSet, vs)))
    decreases elem, 3
  {
    hide D2iColl;
    hide I2dColl;
    hide ReadHeader;
    hide Wrap;
    var inner := I2dColl(elem, isSet, Universal, [Victim(elem)]);
    var s := Wrap(ExplicitIdent(tag), false, inner) + rest;
    ReadWrapped(ExplicitIdent(tag), false, inner, rest);
    assert ExpBudget(s, ReadHeader(s).value) == inner + [];
    VictimSetMisread(elem, isSet, Universal, []);
  }

  lemma {:induction false} VictimFieldsMisread(fs: Fields, rest: seq<byte>)
    requires !FieldsDistinct(fs) && |I2dFields(fs, VictimFields(fs))| <= INT_MAX
    ensures var r := D2iFields(fs, NewFields(fs), I2dFields(fs, VictimFields(fs)) + rest);
            r.FieldsOk? ==> r.values != MergeFields(fs, NewFields(fs), VictimFields(fs))
    decreases fs, 0
  {
    hide D2iField;
    hide I2dField;
    hide MergeField;
    hide VictimField;
    hide FullField;
    var f, more := fs.head, fs.tail;
    var vs := VictimFields(fs);
    var e := I2dField(f, vs[0]);
    var tail := I2dFields(more, vs[1..]) + rest;
    var s := I2dFields(fs, vs) + rest;
    assert s == e + tail;
    assert s[|e|..] == tail;
    var r := D2iFields(fs, NewFields(fs), s);
    if r.FieldsOk? {
      assert r.values[0] == D2iField(f, NewField(f), s).value;
      assert MergeFields(fs, NewFields(fs), vs)[0] == MergeField(f, NewField(f), vs[0]);
    }
    if !FieldDistinct(f) {
      assert vs[0] == VictimField(f);
      VictimFieldMisread(f, tail);
    } else if MayOmit(f) && !Clear(f, more) {
      assert vs[0] == Null && vs[1..] == Clash(f, more);
      OmittedHead(f);
      assert s == tail;
      ClashStarts(f, more, rest);
      DecodedIsPresent(f, Null, s);
    } else {
      MergeTripField(f, NewField(f), vs[0], tail);
      assert vs[1..] == VictimFields(more) && NewFields(fs)[1..] == NewFields(more);
      VictimFieldsMisread(more, rest);
      if r.FieldsOk? {
        assert r.values[1..] == D2iFields(more, NewFields(more), tail).values;
        assert MergeFields(fs, NewFields(fs), vs)[1..] == MergeFields(more, NewFields(more), vs[1..]);
      }
    }
  }

  lemma OmittedHead(f: Field)
    requires MayOmit(f)
    ensures I2dField(f, Null) == [] && NewField(f) == Null && MergeField(f, Null, Null) == Null
  {
  }

  // ----- the exact condition -----

  lemma {:induction false} FullIsCanon(t: Type)
    ensures Canon(t, Full(t))
    decreases t
  {
    match t
    case Rec(fs, _) => FullFieldsAreCanon(fs);
    case _ =>
  }

  lemma {:induction false} FullFieldsAreCanon(fs: Fields)
    ensures CanonFields(fs, FullFields(fs))
    decreases fs
  {
    match fs
    case FNil =>
    case FCons(f, rest) =>
      FullFieldsAreCanon(rest);
      FullFieldIsCanon(f);
  }

  lemma SingleIsCanon(t: Type, isSet: bool, v: Value)
    requires Canon(t, v)
    ensures CanonColl(t, isSet, [v])
  {
    hide Canon;
  }

  lemma {:induction false} FullFieldIsCanon(f: Field)
    ensures CanonField(f, FullField(f))
    decreases f
  {
    hide Canon;
    hide Full;
    match f
    case Plain(t) => FullIsCanon(t);
    case Opt(t) => FullIsCanon(t);
    case ImpOpt(t, _) => FullIsCanon(t);
    case ExpOpt(t, _, _) => FullIsCanon(t);
    case Coll(elem, isSet, _, _) =>
      FullIsCanon(elem);
      SingleIsCanon(elem, isSet, Full(elem));
    case ExpColl(elem, isSet, _) =>
      FullIsCanon(elem);
      SingleIsCanon(elem, isSet, Full(elem));
  }

  lemma {:induction false} VictimIsCanon(t: Type)
    ensures Canon(t, Victim(t))
    decreases t
  {
    match t
    case Prim(_) =>
    case Rec(fs, _) => VictimFieldsAreCanon(fs);
    case Loop(elem, _) => VictimIsCanon(elem);
  }

  lemma {:induction false} VictimFieldsAreCanon(fs: Fields)
    ensures CanonFields(fs, VictimFields(fs))
    decreases fs
  {
    match fs
    case FNil =>
    case FCons(f, rest) =>
      VictimFieldsAreCanon(rest);
      FullFieldsAreCanon(rest);
      ClashIsCanon(f, rest);
      FullFieldIsCanon(f);
      VictimFieldIsCanon(f);
  }

  lemma {:induction false} VictimFieldIsCanon(f: Field)
    ensures CanonField(f, VictimField(f))
    decreases f
  {
    hide Canon;
    hide Victim;
    match f
    case Plain(t) => VictimIsCanon(t);
    case Opt(t) => VictimIsCanon(t);
    case ImpOpt(t, _) => VictimIsCanon(t);
    case ExpOpt(t, _, _) => VictimIsCanon(t);
    case Coll(elem, isSet, _, _) =>
      VictimIsCanon(elem);
      SingleIsCanon(elem, isSet, Victim(elem));
    case ExpColl(elem, isSet, _) =>
      VictimIsCanon(elem);
      SingleIsCanon(elem, isSet, Victim(elem));
  }

  lemma {:induction false} ClashIsCanon(f: Field, fs: Fields)
    ensures CanonFields(fs, Clash(f, fs))
    decreases fs
  {
    match fs
    case FNil =>
    case FCons(g, more) =>
      ClashIsCanon(f, more);
      FullFieldsAreCanon(more);
      FullFieldIsCanon(g);
  }

  /** The victim is a canonical value that never comes back, whatever follows it. */
  lemma VictimLost(t: Type, rest: seq<byte>)
    requires !Distinct(t) && |I2d(t, Victim(t))| <= INT_MAX
    ensures Fits(t, Victim(t)) && Canon(t, Victim(t))
    ensures var r := D2i(t, Null, I2d(t, Victim(t)) + rest);
            r.Ok? ==> r.value != Victim(t)
  {
    hide D2i;
    hide I2d;
    hide Canon;
    hide Merge;
    VictimMisread(t, Null, rest);
    VictimIsCanon(t);
    MergeIdentity(t, Victim(t));
  }

  /** Every canonical value of `t` whose encoding fits a C `int` comes back from its
      encoding, which is used up, whatever follows. */
  ghost predicate AlwaysRoundTrips(t: Type) {
    forall v, rest: seq<byte> | Fits(t, v) && Canon(t, v) && |I2d(t, v)| <= INT_MAX ::
      D2i(t, Null, I2d(t, v) + rest) == Ok(v, |I2d(t, v)|)
  }

  /** That is so exactly when the schema is distinct. (A schema so large that even its victim
      overflows an `int` is not covered by the second half.) */
  lemma RoundTripsExactly(t: Type)
    requires |I2d(t, Victim(t))| <= INT_MAX
    ensures AlwaysRoundTrips(t) <==> Distinct(t)
  {
    hide D2i;
    hide I2d;
    hide Canon;
    hide Fits;
    hide Victim;
    if Distinct(t) {
      forall v, rest: seq<byte> | Fits(t, v) && Canon(t, v) && |I2d(t, v)| <= INT_MAX
        ensures D2i(t, Null, I2d(t, v) + rest) == Ok(v, |I2d(t, v)|)
      {
        RoundTrip(t, v, rest);
      }
    } else {
      var rest: seq<byte> := [];
      VictimLost(t, rest);
      assert D2i(t, Null, I2d(t, Victim(t)) + rest) != Ok(Victim(t), |I2d(t, Victim(t))|);
    }
  }
}
