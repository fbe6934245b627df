/**
 Whether what a d2i function accepts is a well-formed data value. It is, for every schema
 without EXPLICIT fields and for no other.
 */
module Asn1Strict {
  import opened Wrappers
  import opened X690
  import opened Asn1Schema
  import opened Asn1Encoding
  import opened Asn1Decoding
  import opened Asn1RoundTrip
  import opened Asn1Framing
  import opened Asn1Explicit

  // ----- schemas with an EXPLICIT field -----

  predicate Explicit(t: Type) {
    match t
    case Prim(_) => false
    case Rec(fs, _) => FieldsExplicit(fs)
    case Loop(elem, _) => Explicit(elem)
  }

  predicate FieldExplicit(f: Field) {
    match f
    case Plain(t) => Explicit(t)
    case Opt(t) => Explicit(t)
    case ImpOpt(t, _) => Explicit(t)
    case ExpOpt(_, _, _) => true
    case Coll(elem, _, _, _) => Explicit(elem)
    case ExpColl(_, _, _) => true
  }

  predicate FieldsExplicit(fs: Fields) {
    match fs
    case FNil => false
    case FCons(f, rest) => FieldExplicit(f) || FieldsExplicit(rest)
  }

  // ----- without one, acceptance means well-formed -----

  /** What is accepted does not start like the end-of-contents octets. */
  lemma Starts(t: Type, prior: Value, s: seq<byte>)
    requires D2i(t, prior, s).Ok?
    ensures |s| >= 2 && s[0] == TypeIdent(t) && s[0] != 0 && s[0] % 32 != PRIMITIVE_TAG
  {
    hide ReadHeader;
    hide D2iBody;
    hide D2iAll;
  }

  /** Everything that is accepted is one complete data value of exactly the size used. */
  lemma {:induction false} AcceptedIsTlv(t: Type, prior: Value, s: seq<byte>)
    requires !Explicit(t) && D2i(t, prior, s).Ok?
    ensures Tlv(s) == Some(D2i(t, prior, s).used)
    decreases t, 0
  {
    hide ReadHeader;
    hide Tlv;
    hide D2iBody;
    hide D2iColl;
    match t
    case Prim(tag) => PrimitiveTlv(s);
    case Rec(fs, _) =>
      var h := ReadHeader(s).value;
      AcceptedBody(fs, StartFields(fs, prior), h.indefinite, h.size, Contents(s, h));
      ConstructedTlv(s);
    case Loop(elem, _) => AcceptedColl(elem, TypeIdent(t), s);
  }

  lemma PrimitiveTlv(s: seq<byte>)
    requires ReadHeader(s).Some? && !IsConstructed(s[0])
    ensures var h := ReadHeader(s).value;
            Tlv(s) == Some(h.size + h.length)
  {
    hide ReadHeader;
  }

  lemma ConstructedTlv(s: seq<byte>)
    requires ReadHeader(s).Some? && IsConstructed(s[0])
    ensures var h := ReadHeader(s).value;
            Tlv(s) == Shifted(h.size, Tlvs(Contents(s, h), h.indefinite))
  {
    hide ReadHeader;
    hide Tlvs;
  }

  lemma {:induction false} AcceptedBody(
    fs: Fields, start: seq<Value>, indefinite: bool, size: nat, body: seq<byte>)
    requires !FieldsExplicit(fs) && |start| == Count(fs)
    requires D2iBody(fs, start, indefinite, size, body).Ok?
    ensures Shifted(size, Tlvs(body, indefinite)) == Some(D2iBody(fs, start, indefinite, size, body).used)
    decreases fs, 1
  {
    hide Tlvs;
    hide D2iFields;
    AcceptedFields(fs, start, body, indefinite);
    NoMoreTlvs(body[D2iFields(fs, start, body).used..], indefinite);
  }

  lemma NoMoreTlvs(s: seq<byte>, indefinite: bool)
    requires EndSequence(s, indefinite)
    ensures Tlvs(s, indefinite) == Some(if indefinite then 2 else 0)
  {
  }

  lemma {:induction false} AcceptedFields(fs: Fields, prior: seq<Value>, s: seq<byte>, indefinite: bool)
    requires !FieldsExplicit(fs) && |prior| == Count(fs) && D2iFields(fs, prior, s).FieldsOk?
    ensures var used := D2iFields(fs, prior, s).used;
            Tlvs(s, indefinite) == Shifted(used, Tlvs(s[used..], indefinite))
    decreases fs, 0
  {
    hide Tlvs;
    hide D2iField;
    match fs
    case FNil => assert s[0..] == s;
    case FCons(f, rest) =>
      var n := D2iField(f, prior[0], s).used;
      AcceptedFields(rest, prior[1..], s[n..], indefinite);
      var m := D2iFields(rest, prior[1..], s[n..]).used;
      assert s[n..][m..] == s[n + m..];
      if Skips(f, s) {
        assert s[n..] == s;
      } else {
        AcceptedField(f, prior[0], s);
        NextTlv(s, n, indefinite);
      }
  }

  lemma NextTlv(s: seq<byte>, n: nat, indefinite: bool)
    requires s != [] && s[0] != 0 && Tlv(s) == Some(n)
    ensures Tlvs(s, indefinite) == Shifted(n, Tlvs(s[n..], indefinite))
  {
    hide Tlv;
  }

  lemma {:induction false} AcceptedField(f: Field, prior: Value, s: seq<byte>)
    requires !FieldExplicit(f) && !Skips(f, s) && D2iField(f, prior, s).Ok?
    ensures s != [] && s[0] != 0 && Tlv(s) == Some(D2iField(f, prior, s).used)
    decreases f, 0
  {
    hide D2i;
    hide D2iColl;
    hide Tlv;
    match f
    case Plain(t) =>
      Starts(t, prior, s);
      AcceptedIsTlv(t, prior, s);
    case Opt(t) =>
      Starts(t, prior, s);
      AcceptedIsTlv(t, prior, s);
    case ImpOpt(t, _) =>
      var r := Rewritten(t, s);
      Starts(t, prior, r);
      AcceptedIsTlv(t, prior, r);
      SameFraming(s, r[0]);
    case Coll(elem, isSet, tagging, _) =>
      AcceptedColl(elem, CollIdent(isSet, tagging), s);
  }

  lemma {:induction false} AcceptedColl(elem: Type, ident: byte, s: seq<byte>)
    requires !Explicit(elem) && IsConstructed(ident) && D2iColl(elem, ident, s).AllOk?
    ensures s != [] && s[0] == ident && Tlv(s) == Some(D2iColl(elem, ident, s).used)
    decreases elem, 2
  {
    hide ReadHeader;
    hide Tlv;
    hide Tlvs;
    hide D2iAll;
    var h := ReadHeader(s).value;
    AcceptedAll(elem, Contents(s, h), h.indefinite);
    ConstructedTlv(s);
  }

  lemma {:induction false} AcceptedAll(elem: Type, s: seq<byte>, indefinite: bool)
    requires !Explicit(elem) && D2iAll(elem, s, indefinite).AllOk?
    ensures Tlvs(s, indefinite) == Some(D2iAll(elem, s, indefinite).used)
    decreases elem, 1, |s|
  {
    hide D2i;
    hide Tlv;
    if EndSequence(s, indefinite) {
      NoMoreTlvs(s, indefinite);
    } else {
      var n := D2i(elem, Null, s).used;
      AcceptedIsTlv(elem, Null, s);
      AcceptedAll(elem, s[n..], indefinite);
      Starts(elem, Null, s);
      NextTlv(s, n, indefinite);
    }
  }

  // ----- octets that every schema accepts -----

  /** Octets in which every field is present and as short as it can be in the indefinite form. */
  function Sample(t: Type): (s: seq<byte>)
    ensures |s| >= 2 && s[0] == TypeIdent(t)
  {
    match t
    case Prim(tag) => Wrap(tag, false, [])
    case Rec(fs, _) => Wrap(SEQUENCE_IDENT, true, SampleFields(fs))
    case Loop(_, _) => Wrap(SEQUENCE_IDENT, true, [])
  }

  function SampleField(f: Field): (s: seq<byte>)
    ensures |s| >= 2 && s[0] == FieldIdent(f)
  {
    match f
    case Plain(t) => Sample(t)
    case Opt(t) => Sample(t)
    case ImpOpt(t, tag) => Retag(Sample(t), tag)
    case ExpOpt(t, tag, _) => Wrap(ExplicitIdent(tag), true, Sample(t))
    case Coll(_, isSet, tagging, _) => Wrap(CollIdent(isSet, tagging), true, [])
    case ExpColl(_, isSet, tag) => Wrap(ExplicitIdent(tag), true, EmptyColl(isSet))
  }

  function SampleFields(fs: Fields): seq<byte> {
    match fs
    case FNil => []
    case FCons(f, rest) => SampleField(f) + SampleFields(rest)
  }

  function EmptyColl(isSet: bool): (s: seq<byte>)
    ensures |s| == 4
  {
    Wrap(CollIdent(isSet, Universal), true, [])
  }

  /** `e` is accepted and used up when `rest` follows it. */
  predicate Accepts(t: Type, prior: Value, e: seq<byte>, rest: seq<byte>) {
    var r := D2i(t, prior, e + rest);
    r.Ok? && r.used == |e|
  }

  predicate FieldAccepts(f: Field, prior: Value, e: seq<byte>, rest: seq<byte>) {
    var r := D2iField(f, prior, e + rest);
    !Skips(f, e + rest) && r.Ok? && r.used == |e|
  }

  predicate FieldsAccept(fs: Fields, prior: seq<Value>, e: seq<byte>, rest: seq<byte>)
    requires |prior| == Count(fs)
  {
    var r := D2iFields(fs, prior, e + rest);
    r.FieldsOk? && r.used == |e|
  }

  lemma RecAccepts(fs: Fields, indefinite: bool, prior: Value, body: seq<byte>, rest: seq<byte>)
    requires FieldsAccept(fs, StartFields(fs, prior), body, EOC + rest)
    ensures Accepts(Rec(fs, indefinite), prior, Wrap(SEQUENCE_IDENT, true, body), rest)
  {
    ReadOpen(SEQUENCE_IDENT, body, rest);
    hide ReadHeader;
    hide D2iFields;
    hide StartFields;
    var s := Wrap(SEQUENCE_IDENT, true, body) + rest;
    assert Contents(s, Header(true, 2, 0)) == body + (EOC + rest);
    assert (body + (EOC + rest))[|body|..] == EOC + rest;
    assert AtEoc(EOC + rest);
    RecStep(fs, prior, s);
  }

  lemma CollAccepts(elem: Type, ident: byte, body: seq<byte>, rest: seq<byte>)
    requires IsConstructed(ident) && ident % 32 != PRIMITIVE_TAG
    requires body == [] || (Accepts(elem, Null, body, EOC + rest) && body[0] != 0)
    ensures var r := D2iColl(elem, ident, Wrap(ident, true, body) + rest);
            r.AllOk? && r.used == |Wrap(ident, true, body)|
  {
    ReadOpen(ident, body, rest);
    hide ReadHeader;
    hide D2i;
    AtMostOne(elem, body, rest);
    hide D2iAll;
  }

  lemma AtMostOne(elem: Type, body: seq<byte>, rest: seq<byte>)
    requires body == [] || (Accepts(elem, Null, body, EOC + rest) && body[0] != 0)
    ensures var r := D2iAll(elem, body + (EOC + rest), true);
            r.AllOk? && r.used == |body| + 2
  {
    hide D2i;
    assert EndSequence(EOC + rest, true);
    assert D2iAll(elem, EOC + rest, true) == AllOk([], 2);
    if body == [] {
      assert body + (EOC + rest) == EOC + rest;
    } else {
      assert (body + (EOC + rest))[|body|..] == EOC + rest;
    }
  }

  lemma ImpAccepts(t: Type, tag: CtxTag, prior: Value, e: seq<byte>, rest: seq<byte>)
    requires |e| >= 2 && e[0] == TypeIdent(t) && Accepts(t, prior, e, rest)
    ensures FieldAccepts(ImpOpt(t, tag), prior, Retag(e, tag), rest)
  {
    hide D2i;
    assert Rewritten(t, Retag(e, tag) + rest) == e + rest;
  }

  lemma {:induction false} SampleAccepted(t: Type, prior: Value, rest: seq<byte>)
    ensures Accepts(t, prior, Sample(t), rest)
    decreases t
  {
    match t
    case Prim(tag) =>
      assert ReadHeader(Sample(t) + rest) == Some(Header(false, 2, 0));
    case Rec(fs, indefinite) =>
      SampleFieldsAccepted(fs, StartFields(fs, prior), EOC + rest);
      RecAccepts(fs, indefinite, prior, SampleFields(fs), rest);
    case Loop(elem, _) =>
      CollAccepts(elem, SEQUENCE_IDENT, [], rest);
  }

  lemma {:induction false} SampleFieldAccepted(f: Field, prior: Value, rest: seq<byte>)
    ensures FieldAccepts(f, prior, SampleField(f), rest)
    decreases f
  {
    hide D2i;
    hide D2iColl;
    hide ReadHeader;
    hide Wrap;
    hide Sample;
    match f
    case Plain(t) => SampleAccepted(t, prior, rest);
    case Opt(t) => SampleAccepted(t, prior, rest);
    case ImpOpt(t, tag) =>
      SampleAccepted(t, prior, rest);
      ImpAccepts(t, tag, prior, Sample(t), rest);
    case ExpOpt(t, _, _) =>
      SampleAccepted(t, prior, (EOC + rest)[..|rest|]);
      OpenExpAccepts(f, prior, Sample(t), rest);
    case Coll(elem, isSet, tagging, _) => CollAccepts(elem, CollIdent(isSet, tagging), [], rest);
    case ExpColl(elem, isSet, _) =>
      CollAccepts(elem, CollIdent(isSet, Universal), [], (EOC + rest)[..|rest|]);
      OpenExpAccepts(f, prior, EmptyColl(isSet), rest);
  }

  /** What the explicit macros call on the inner value. */
  predicate InnerAccepts(f: Field, prior: Value, e: seq<byte>, rest: seq<byte>)
    requires f.ExpOpt? || f.ExpColl?
  {
    if f.ExpOpt? then Accepts(f.t, prior, e, rest)
    else
      var r := D2iColl(f.elem, CollIdent(f.isSet, Universal), e + rest);
      r.AllOk? && r.used == |e|
  }

  lemma OpenExpAccepts(f: Field, prior: Value, e: seq<byte>, rest: seq<byte>)
    requires f.ExpOpt? || f.ExpColl?
    requires InnerAccepts(f, prior, e, (EOC + rest)[..|rest|])
    ensures FieldAccepts(f, prior, Wrap(ExplicitIdent(f.tag), true, e), rest)
  {
    hide D2i;
    hide D2iColl;
    hide ReadHeader;
    hide ExpBudget;
    OpenBudget(ExplicitIdent(f.tag), e, rest);
    assert AtEoc(EOC + rest);
  }

  lemma OverlongAccepts(f: Field, prior: Value, e: seq<byte>, rest: seq<byte>)
    requires f.ExpOpt? || f.ExpColl?
    requires rest != [] && |e| < INT_MAX && InnerAccepts(f, prior, e, [rest[0]])
    ensures FieldAccepts(f, prior, Overlong(ExplicitIdent(f.tag), e), rest)
  {
    hide D2i;
    hide D2iColl;
    hide ReadHeader;
    hide Overlong;
    OverlongHeader(ExplicitIdent(f.tag), e, rest);
  }

  lemma {:induction false} SampleFieldsAccepted(fs: Fields, prior: seq<Value>, rest: seq<byte>)
    requires |prior| == Count(fs)
    ensures FieldsAccept(fs, prior, SampleFields(fs), rest)
    decreases fs
  {
    match fs
    case FNil => assert [] + rest == rest;
    case FCons(f, more) =>
      SampleFieldAccepted(f, prior[0], SampleFields(more) + rest);
      SampleFieldsAccepted(more, prior[1..], rest);
      OneMoreField(fs, prior, SampleField(f), SampleFields(more), rest);
  }

  lemma OneMoreField(fs: Fields, prior: seq<Value>, e: seq<byte>, more: seq<byte>, rest: seq<byte>)
    requires fs.FCons? && |prior| == Count(fs)
    requires FieldAccepts(fs.head, prior[0], e, more + rest)
    requires FieldsAccept(fs.tail, prior[1..], more, rest)
    ensures FieldsAccept(fs, prior, e + more, rest)
  {
    hide D2iField;
    assert e + more + rest == e + (more + rest);
    assert (e + (more + rest))[|e|..] == more + rest;
  }

  // ----- they are well-formed -----

  lemma {:induction false} SampleIsTlv(t: Type)
    requires |Sample(t)| <= INT_MAX
    ensures IsTlv(Sample(t))
    decreases t
  {
    hide IsTlv;
    hide AreTlvs;
    match t
    case Prim(tag) =>
      PrimIsTlv(tag, []);
    case Rec(fs, _) =>
      SampleFieldsAreTlvs(fs);
      WrapIsTlv(SEQUENCE_IDENT, true, SampleFields(fs));
    case Loop(_, _) =>
      NoTlvs();
      WrapIsTlv(SEQUENCE_IDENT, true, []);
  }

  lemma EmptyIsTlv(ident: byte)
    requires IsConstructed(ident) && ident % 32 != PRIMITIVE_TAG
    ensures IsTlv(Wrap(ident, true, []))
  {
    hide IsTlv;
    hide AreTlvs;
    NoTlvs();
    WrapIsTlv(ident, true, []);
  }

  lemma {:induction false} SampleFieldIsTlv(f: Field)
    requires |SampleField(f)| <= INT_MAX
    ensures IsTlv(SampleField(f))
    decreases f
  {
    hide IsTlv;
    hide AreTlvs;
    match f
    case Plain(t) => SampleIsTlv(t);
    case Opt(t) => SampleIsTlv(t);
    case ImpOpt(t, tag) =>
      SampleIsTlv(t);
      RetagIsTlv(Sample(t), tag);
    case ExpOpt(t, tag, _) =>
      SampleIsTlv(t);
      SingleTlv(Sample(t));
      WrapIsTlv(ExplicitIdent(tag), true, Sample(t));
    case Coll(_, isSet, tagging, _) => EmptyIsTlv(CollIdent(isSet, tagging));
    case ExpColl(_, isSet, tag) =>
      EmptyIsTlv(CollIdent(isSet, Universal));
      SingleTlv(EmptyColl(isSet));
      WrapIsTlv(ExplicitIdent(tag), true, EmptyColl(isSet));
  }

  lemma {:induction false} SampleFieldsAreTlvs(fs: Fields)
    requires |SampleFields(fs)| <= INT_MAX
    ensures AreTlvs(SampleFields(fs))
    decreases fs
  {
    hide IsTlv;
    hide AreTlvs;
    match fs
    case FNil => NoTlvs();
    case FCons(f, rest) =>
      SampleFieldIsTlv(f);
      SampleFieldsAreTlvs(rest);
      OneMoreTlv(SampleField(f), SampleFields(rest));
  }

  // ----- malformed octets that are accepted -----

  /** The definite form of an explicit tag, declaring one octet more than it holds. */
  function Overlong(ident: byte, e: seq<byte>): (s: seq<byte>)
    ensures |s| >= |e| + 2 && s[0] == ident
  {
    HeaderOctets(ident, |e| + 1) + e
  }

  /** As the sample, but in the indefinite form around one overlong explicit field. */
  function Crooked(t: Type): (s: seq<byte>)
    requires Explicit(t)
    ensures |s| >= 2 && s[0] == TypeIdent(t)
  {
    match t
    case Rec(fs, _) => Wrap(SEQUENCE_IDENT, true, CrookedFields(fs))
    case Loop(elem, _) => Wrap(SEQUENCE_IDENT, true, Crooked(elem))
  }

  function CrookedField(f: Field): (s: seq<byte>)
    requires FieldExplicit(f)
    ensures |s| >= 2 && s[0] == FieldIdent(f)
  {
    match f
    case Plain(t) => Crooked(t)
    case Opt(t) => Crooked(t)
    case ImpOpt(t, tag) => Retag(Crooked(t), tag)
    case ExpOpt(t, tag, _) => Overlong(ExplicitIdent(tag), Sample(t))
    case Coll(elem, isSet, tagging, _) => Wrap(CollIdent(isSet, tagging), true, Crooked(elem))
    case ExpColl(_, isSet, tag) => Overlong(ExplicitIdent(tag), EmptyColl(isSet))
  }

  function CrookedFields(fs: Fields): (s: seq<byte>)
    requires FieldsExplicit(fs)
  {
    match fs
    case FCons(f, rest) =>
      if FieldExplicit(f) then CrookedField(f) + SampleFields(rest)
      else SampleField(f) + CrookedFields(rest)
  }

  /** The octet behind the field counts as its contents. */
  lemma OverlongHeader(ident: byte, e: seq<byte>, rest: seq<byte>)
    requires ident % 32 != PRIMITIVE_TAG && |e| < INT_MAX && rest != []
    ensures var h := Header(false, |Overlong(ident, e)| - |e|, |e| + 1);
            var s := Overlong(ident, e) + rest;
            ReadHeader(s) == Some(h) && s[h.size..h.size + h.length] == e + [rest[0]]
  {
    hide ReadHeader;
    hide LengthOctets;
    var o, c := HeaderOctets(ident, |e| + 1), e + [rest[0]];
    assert Overlong(ident, e) + rest == o + c + rest[1..];
    ReadWrittenHeader(ident, c, rest[1..]);
  }

  lemma {:induction false} CrookedAccepted(t: Type, prior: Value, rest: seq<byte>)
    requires Explicit(t) && |Crooked(t)| <= INT_MAX
    ensures Accepts(t, prior, Crooked(t), rest)
    decreases t
  {
    match t
    case Rec(fs, indefinite) =>
      CrookedFieldsAccepted(fs, StartFields(fs, prior), EOC + rest);
      RecAccepts(fs, indefinite, prior, CrookedFields(fs), rest);
    case Loop(elem, _) =>
      CrookedAccepted(elem, Null, EOC + rest);
      CollAccepts(elem, SEQUENCE_IDENT, Crooked(elem), rest);
  }

  lemma {:induction false} CrookedFieldAccepted(f: Field, prior: Value, rest: seq<byte>)
    requires FieldExplicit(f) && |CrookedField(f)| <= INT_MAX && rest != []
    ensures FieldAccepts(f, prior, CrookedField(f), rest)
    decreases f
  {
    hide D2i;
    hide D2iColl;
    hide ReadHeader;
    hide Wrap;
    hide Overlong;
    hide Sample;
    hide Crooked;
    match f
    case Plain(t) => CrookedAccepted(t, prior, rest);
    case Opt(t) => CrookedAccepted(t, prior, rest);
    case ImpOpt(t, tag) =>
      CrookedAccepted(t, prior, rest);
      ImpAccepts(t, tag, prior, Crooked(t), rest);
    case ExpOpt(t, _, _) =>
      SampleAccepted(t, prior, [rest[0]]);
      OverlongAccepts(f, prior, Sample(t), rest);
    case Coll(elem, isSet, tagging, _) =>
      CrookedAccepted(elem, Null, EOC + rest);
      CollAccepts(elem, CollIdent(isSet, tagging), Crooked(elem), rest);
    case ExpColl(elem, isSet, _) =>
      CollAccepts(elem, CollIdent(isSet, Universal), [], [rest[0]]);
      OverlongAccepts(f, prior, EmptyColl(isSet), rest);
  }

  lemma {:induction false} CrookedFieldsAccepted(fs: Fields, prior: seq<Value>, rest: seq<byte>)
    requires FieldsExplicit(fs) && |prior| == Count(fs) && |CrookedFields(fs)| <= INT_MAX && rest != []
    ensures FieldsAccept(fs, prior, CrookedFields(fs), rest)
    decreases fs
  {
    hide FieldAccepts;
    hide FieldsAccept;
    var f, more := fs.head, fs.tail;
    if FieldExplicit(f) {
      CrookedFieldAccepted(f, prior[0], SampleFields(more) + rest);
      SampleFieldsAccepted(more, prior[1..], rest);
      OneMoreField(fs, prior, CrookedField(f), SampleFields(more), rest);
    } else {
      SampleFieldAccepted(f, prior[0], CrookedFields(more) + rest);
      CrookedFieldsAccepted(more, prior[1..], rest);
      OneMoreField(fs, prior, SampleField(f), CrookedFields(more), rest);
    }
  }

  /** `e` does not start a well-formed data value, whatever follows it. */
  ghost predicate NoTlv(e: seq<byte>) {
    e != [] && e[0] != 0 && forall rest: seq<byte> | rest != [] :: Tlv(e + rest) == None
  }

  lemma OverlongIsNoTlv(ident: byte, e: seq<byte>)
    requires IsConstructed(ident) && ident % 32 != PRIMITIVE_TAG && |e| < INT_MAX && IsTlv(e)
    ensures NoTlv(Overlong(ident, e))
  {
    hide ReadHeader;
    hide IsTlv;
    hide Tlvs;
    var o := Overlong(ident, e);
    forall rest: seq<byte> | rest != [] ensures Tlv(o + rest) == None {
      OverlongHeader(ident, e, rest);
      OneOctetOver(e, rest[0]);
      ConstructedTlv(o + rest);
    }
  }

  lemma OneOctetOver(e: seq<byte>, x: byte)
    requires IsTlv(e)
    ensures Tlvs(e + [x], false) == None
  {
    hide IsTlv;
    TlvThen(e, [x], false);
    assert ReadHeader([x]) == None;
  }

  /** Behind well-formed values a malformed one spoils the whole. */
  lemma WrapNoTlv(ident: byte, a: seq<byte>, b: seq<byte>, c: seq<byte>)
    requires IsConstructed(ident) && ident % 32 != PRIMITIVE_TAG && AreTlvs(a) && NoTlv(b)
    ensures NoTlv(Wrap(ident, true, a + b + c))
  {
    hide ReadHeader;
    hide Tlv;
    hide Tlvs;
    var w := Wrap(ident, true, a + b + c);
    forall rest: seq<byte> | rest != [] ensures Tlv(w + rest) == None {
      ReadOpen(ident, a + b + c, rest);
      var after := c + (EOC + rest);
      assert a + b + c + (EOC + rest) == a + (b + after);
      assert Tlvs(a + (b + after), true) == Shifted(|a|, Tlvs(b + after, true));
      StopsAt(b, after);
      ConstructedTlv(w + rest);
    }
  }

  lemma StopsAt(e: seq<byte>, rest: seq<byte>)
    requires NoTlv(e) && rest != []
    ensures Tlvs(e + rest, true) == None
  {
    hide Tlv;
  }

  lemma RetagNoTlv(e: seq<byte>, tag: CtxTag)
    requires NoTlv(e) && e[0] % 32 != PRIMITIVE_TAG
    ensures NoTlv(Retag(e, tag))
  {
    hide Tlv;
    var r := Retag(e, tag);
    forall rest: seq<byte> | rest != [] ensures Tlv(r + rest) == None {
      assert r + rest == (e + rest)[0 := r[0]];
      assert Tlv(e + rest) == None;
      SameFraming(e + rest, r[0]);
    }
  }

  lemma {:induction false} CrookedIsNoTlv(t: Type)
    requires Explicit(t) && |Crooked(t)| <= INT_MAX
    ensures NoTlv(Crooked(t))
    decreases t
  {
    hide NoTlv;
    hide AreTlvs;
    match t
    case Rec(fs, _) =>
      NoTlvs();
      CrookedFieldsSpoil(fs, SEQUENCE_IDENT, []);
      assert [] + CrookedFields(fs) == CrookedFields(fs);
    case Loop(elem, _) =>
      CrookedIsNoTlv(elem);
      NoTlvs();
      WrapNoTlv(SEQUENCE_IDENT, [], Crooked(elem), []);
      assert [] + Crooked(elem) + [] == Crooked(elem);
  }

  lemma {:induction false} CrookedFieldIsNoTlv(f: Field)
    requires FieldExplicit(f) && |CrookedField(f)| <= INT_MAX
    ensures NoTlv(CrookedField(f))
    decreases f
  {
    hide NoTlv;
    hide AreTlvs;
    hide IsTlv;
    match f
    case Plain(t) => CrookedIsNoTlv(t);
    case Opt(t) => CrookedIsNoTlv(t);
    case ImpOpt(t, tag) =>
      CrookedIsNoTlv(t);
      RetagNoTlv(Crooked(t), tag);
    case ExpOpt(t, tag, _) =>
      SampleIsTlv(t);
      OverlongIsNoTlv(ExplicitIdent(tag), Sample(t));
    case Coll(elem, isSet, tagging, _) =>
      CrookedIsNoTlv(elem);
      NoTlvs();
      WrapNoTlv(CollIdent(isSet, tagging), [], Crooked(elem), []);
      assert [] + Crooked(elem) + [] == Crooked(elem);
    case ExpColl(_, isSet, tag) =>
      EmptyIsTlv(CollIdent(isSet, Universal));
      OverlongIsNoTlv(ExplicitIdent(tag), EmptyColl(isSet));
  }

  /** `before` are the fields already passed. */
  lemma {:induction false} CrookedFieldsSpoil(fs: Fields, ident: byte, before: seq<byte>)
    requires FieldsExplicit(fs) && |CrookedFields(fs)| <= INT_MAX && AreTlvs(before)
    requires IsConstructed(ident) && ident % 32 != PRIMITIVE_TAG
    ensures NoTlv(Wrap(ident, true, before + CrookedFields(fs)))
    decreases fs
  {
    hide NoTlv;
    hide AreTlvs;
    hide IsTlv;
    hide Wrap;
    var f, more := fs.head, fs.tail;
    if FieldExplicit(f) {
      CrookedFieldIsNoTlv(f);
      WrapNoTlv(ident, before, CrookedField(f), SampleFields(more));
      assert before + CrookedFields(fs) == before + CrookedField(f) + SampleFields(more);
    } else {
      SampleFieldIsTlv(f);
      TlvsThen(before, SampleField(f));
      CrookedFieldsSpoil(more, ident, before + SampleField(f));
      assert before + CrookedFields(fs) == before + SampleField(f) + CrookedFields(more);
    }
  }

  lemma TlvsThen(a: seq<byte>, e: seq<byte>)
    requires AreTlvs(a) && IsTlv(e)
    ensures AreTlvs(a + e)
  {
    hide Tlvs;
    hide IsTlv;
    forall rest, indefinite: bool
      ensures Tlvs(a + e + rest, indefinite) == Shifted(|a + e|, Tlvs(rest, indefinite))
    {
      TlvsThenAt(a, e, rest, indefinite);
    }
  }

  lemma TlvsThenAt(a: seq<byte>, e: seq<byte>, rest: seq<byte>, indefinite: bool)
    requires AreTlvs(a) && IsTlv(e)
    ensures Tlvs(a + e + rest, indefinite) == Shifted(|a + e|, Tlvs(rest, indefinite))
  {
    hide AreTlvs;
    hide IsTlv;
    hide Tlvs;
    assert a + e + rest == a + (e + rest);
    TlvThen(e, rest, indefinite);
    TlvsBefore(a, e + rest, indefinite);
  }

  lemma TlvsBefore(a: seq<byte>, rest: seq<byte>, indefinite: bool)
    requires AreTlvs(a)
    ensures Tlvs(a + rest, indefinite) == Shifted(|a|, Tlvs(rest, indefinite))
  {
    hide Tlvs;
  }

  // ----- the exact condition -----

  /** Every accepted input is a well-formed data value of the size used. */
  ghost predicate AcceptsOnlyTlvs(t: Type) {
    forall prior, s :: D2i(t, prior, s).Ok? ==> Tlv(s) == Some(D2i(t, prior, s).used)
  }

  /** A type accepts only well-formed data values exactly when it has no EXPLICIT field, at
      any depth. (A schema so large that its smallest counterexample overflows an `int` is not
      covered by the second half.) */
  lemma StrictExactly(t: Type)
    requires Explicit(t) ==> |Crooked(t)| <= INT_MAX
    ensures AcceptsOnlyTlvs(t) <==> !Explicit(t)
  {
    hide D2i;
    hide Tlv;
    hide Explicit;
    if Explicit(t) {
      var rest: seq<byte> := [0];
      CrookedAccepted(t, Null, rest);
      CrookedIsNoTlv(t);
      assert Tlv(Crooked(t) + rest) == None;
    } else {
      forall prior, s | D2i(t, prior, s).Ok? ensures Tlv(s) == Some(D2i(t, prior, s).used) {
        AcceptedIsTlv(t, prior, s);
      }
    }
  }

  /** A short malformed input: the explicit field declares five octets, its value takes three,
      and the next field is read from the other two on. */
  lemma MalformedAccepted()
    ensures var fs := FCons(ExpOpt(Prim(4), 0, false), FCons(Plain(Prim(4)), FNil));
            var s := [0x30, 8, 0xa0, 5, 4, 1, 7, 4, 1, 9];
            && D2i(Rec(fs, false), Null, s) == Ok(Record([Octets([7]), Octets([9])]), 10)
            && Tlv(s) == None
  {
    hide D2i;
    hide Tlv;
    OverlongInside(FCons(ExpOpt(Prim(4), 0, false), FCons(Plain(Prim(4)), FNil)),
                   [0x30, 8, 0xa0, 5, 4, 1, 7, 4, 1, 9]);
  }

  lemma OverlongInside(fs: Fields, s: seq<byte>)
    requires fs == FCons(ExpOpt(Prim(4), 0, false), FCons(Plain(Prim(4)), FNil))
    requires s == [0x30, 8, 0xa0, 5, 4, 1, 7, 4, 1, 9]
    ensures D2i(Rec(fs, false), Null, s) == Ok(Record([Octets([7]), Octets([9])]), 10)
    ensures Tlv(s) == None
  {
    hide D2i;
    hide Tlv;
    hide D2iFields;
    OverlongOutside(s);
    var body := s[2..10];
    OverlongList(fs, body);
    OverlongTlv(body);
    NoTlvInside(s, body);
    WholeList(fs, s, body);
  }

  lemma WholeList(fs: Fields, s: seq<byte>, body: seq<byte>)
    requires |s| >= 2 && s[0] == SEQUENCE_IDENT && ReadHeader(s) == Some(Header(false, 2, |s| - 2))
    requires body == s[2..|s|]
    requires var r := D2iFields(fs, NewFields(fs), body);
             r.FieldsOk? && r.used == |body|
    ensures D2i(Rec(fs, false), Null, s) == Ok(Record(D2iFields(fs, NewFields(fs), body).values), |s|)
  {
    hide ReadHeader;
    hide D2iFields;
    hide NewFields;
    assert Contents(s, ReadHeader(s).value) == body;
    RecStep(fs, Null, s);
  }

  lemma OverlongOutside(s: seq<byte>)
    requires s == [0x30, 8, 0xa0, 5, 4, 1, 7, 4, 1, 9]
    ensures ReadHeader(s) == Some(Header(false, 2, 8)) && s[2..10] == [0xa0, 5, 4, 1, 7, 4, 1, 9]
  {
  }

  lemma NoTlvInside(s: seq<byte>, body: seq<byte>)
    requires |s| >= 2 && ReadHeader(s) == Some(Header(false, 2, |s| - 2)) && IsConstructed(s[0])
    requires body == s[2..|s|] && body != [] && Tlv(body) == None
    ensures Tlv(s) == None
  {
    ConstructedTlv(s);
    hide ReadHeader;
    hide Tlv;
  }

  lemma OverlongList(fs: Fields, s: seq<byte>)
    requires fs == FCons(ExpOpt(Prim(4), 0, false), FCons(Plain(Prim(4)), FNil))
    requires s == [0xa0, 5, 4, 1, 7, 4, 1, 9]
    ensures D2iFields(fs, NewFields(fs), s) == FieldsOk([Octets([7]), Octets([9])], 8, Some(5))
  {
    OverlongFirst(s);
    SlackNext(s[5..], Octets([]));
    TwoFields(fs, Null, Octets([]), s, 5, 3);
    hide D2iField;
    hide D2iFields;
    assert NewFields(fs) == [Null, Octets([])];
  }

  lemma OverlongFirst(s: seq<byte>)
    requires s == [0xa0, 5, 4, 1, 7, 4, 1, 9]
    ensures D2iField(ExpOpt(Prim(4), 0, false), Null, s) == Ok(Octets([7]), 5)
  {
    assert ReadHeader(s) == Some(Header(false, 2, 5));
    assert s[2..7] == [4, 1, 7] + [4, 1];
    OneOctet(7, [4, 1]);
    hide D2i;
    hide ReadHeader;
  }

  lemma OverlongTlv(s: seq<byte>)
    requires s == [0xa0, 5, 4, 1, 7, 4, 1, 9]
    ensures s[0] != 0 && Tlv(s) == None
  {
    var inside: seq<byte> := [4, 1, 7, 4, 1];
    assert ReadHeader(s) == Some(Header(false, 2, 5)) && s[2..7] == inside;
    assert ReadHeader(inside) == Some(Header(false, 2, 1));
    PrimitiveTlv(inside);
    NextTlv(inside, 3, false);
    assert inside[3..] == [4, 1] && ReadHeader([4, 1]) == None;
    ConstructedTlv(s);
  }
}
