/**
 What decoding owes to the object it decodes into. The macros keep a member whose field
 they skip, so an existing object can show through; nothing else depends on it.
 */
module Asn1Destination {
  import opened Wrappers
  import opened X690
  import opened Asn1Schema
  import opened Asn1Encoding
  import opened Asn1Decoding
  import opened Asn1Merge
  import opened Asn1RoundTrip

  // ----- acceptance -----

  /** Both accept and use the same octets, or both fail alike. */
  predicate SameOutcome(a: Reply, b: Reply) {
    if a.Ok? then b.Ok? && a.used == b.used
    else b.Err? && a.error == b.error && a.at == b.at
  }

  predicate SameFieldsOutcome(a: FieldsReply, b: FieldsReply) {
    if a.FieldsOk? then b.FieldsOk? && a.used == b.used && a.last == b.last
    else b.FieldsErr? && a.error == b.error && a.at == b.at
  }

  /** For any octets, acceptance, the octets used, the error and the reported offset do not
      depend on the destination. */
  lemma {:induction false} DestinationIrrelevant(t: Type, p: Value, q: Value, s: seq<byte>)
    ensures SameOutcome(D2i(t, p, s), D2i(t, q, s))
    decreases t, 0
  {
    hide ReadHeader;
    hide D2iColl;
    match t
    case Prim(_) =>
    case Rec(fs, _) => RecIrrelevant(fs, p, q, s);
    case Loop(_, _) =>
  }

  lemma {:induction false} RecIrrelevant(fs: Fields, p: Value, q: Value, s: seq<byte>)
    ensures SameOutcome(D2iRec(fs, p, s), D2iRec(fs, q, s))
    decreases fs, 1
  {
    hide D2iRec;
    hide D2iBody;
    hide ReadHeader;
    hide StartFields;
    RecOutcome(fs, p, s);
    RecOutcome(fs, q, s);
    if ReadHeader(s).Some? {
      var h := ReadHeader(s).value;
      BodyIrrelevant(fs, StartFields(fs, p), StartFields(fs, q), h.indefinite, h.size, Contents(s, h));
    }
  }

  lemma RecOutcome(fs: Fields, p: Value, s: seq<byte>)
    ensures var r := D2iRec(fs, p, s);
            if ReadHeader(s).None? then r.Err? && r.error == BadObjectHeader && r.at == 0
            else if s[0] != SEQUENCE_IDENT then r.Err? && r.error == WrongTag && r.at == 0
            else
              var h := ReadHeader(s).value;
              SameOutcome(r, D2iBody(fs, StartFields(fs, p), h.indefinite, h.size, Contents(s, h)))
  {
    hide ReadHeader;
    hide StartFields;
    hide D2iBody;
  }

  lemma {:induction false} BodyIrrelevant(
    fs: Fields, p: seq<Value>, q: seq<Value>, indefinite: bool, size: nat, body: seq<byte>)
    requires |p| == |q| == Count(fs)
    ensures SameOutcome(D2iBody(fs, p, indefinite, size, body), D2iBody(fs, q, indefinite, size, body))
    decreases fs, 0, 1
  {
    hide D2iFields;
    FieldsIrrelevant(fs, p, q, body);
  }

  lemma {:induction false} FieldIrrelevant(f: Field, p: Value, q: Value, s: seq<byte>)
    ensures SameOutcome(D2iField(f, p, s), D2iField(f, q, s))
    decreases f, 0, 1
  {
    hide D2i;
    hide ReadHeader;
    hide D2iColl;
    hide ExpBudget;
    hide Closing;
    hide Guard;
    hide Rewritten;
    if !Skips(f, s) {
      match f
      case Plain(t) => DestinationIrrelevant(t, p, q, s);
      case Opt(t) => DestinationIrrelevant(t, p, q, s);
      case ImpOpt(t, _) => DestinationIrrelevant(t, p, q, Rewritten(t, s));
      case ExpOpt(_, _, _) => ExplicitIrrelevant(f, p, q, s);
      case Coll(_, _, _, _) =>
      case ExpColl(_, _, _) => ExplicitIrrelevant(f, p, q, s);
    }
  }

  lemma {:induction false} ExplicitIrrelevant(f: Field, p: Value, q: Value, s: seq<byte>)
    requires (f.ExpOpt? || f.ExpColl?) && !Skips(f, s)
    ensures SameOutcome(D2iField(f, p, s), D2iField(f, q, s))
    decreases f, 0, 0
  {
    hide D2i;
    hide ReadHeader;
    hide D2iColl;
    hide ExpBudget;
    hide Closing;
    if ReadHeader(s).Some? {
      var h := ReadHeader(s).value;
      var budget := ExpBudget(s, h);
      if f.ExpOpt? {
        DestinationIrrelevant(f.t, p, q, budget);
        ClosingIrrelevant(h, s, p, q, Nested(D2i(f.t, p, budget)), Nested(D2i(f.t, q, budget)));
      } else {
        var r := D2iColl(f.elem, CollIdent(f.isSet, Universal), budget);
        ClosingIrrelevant(h, s, p, q, NestedColl(p, r), NestedColl(q, r));
      }
    }
  }

  lemma ClosingIrrelevant(h: Header, s: seq<byte>, p: Value, q: Value, a: Reply, b: Reply)
    requires SameOutcome(a, b) && h.size <= |s|
    requires a.Ok? ==> h.size + a.used <= |s|
    ensures SameOutcome(Closing(h, s, p, a), Closing(h, s, q, b))
  {
  }

  lemma {:induction false} FieldsIrrelevant(fs: Fields, p: seq<Value>, q: seq<Value>, s: seq<byte>)
    requires |p| == |q| == Count(fs)
    ensures SameFieldsOutcome(D2iFields(fs, p, s), D2iFields(fs, q, s))
    decreases fs, 0, 0
  {
    hide D2iField;
    match fs
    case FNil =>
    case FCons(f, rest) =>
      hide D2iFields;
      FieldsStep(fs, p, s);
      FieldsStep(fs, q, s);
      FieldIrrelevant(f, p[0], q[0], s);
      var r := D2iField(f, p[0], s);
      if r.Ok? {
        FieldsIrrelevant(rest, p[1..], q[1..], s[r.used..]);
      }
  }

  // ----- the value -----

  /** The decoded value `w` sets every optional member of `prior` that is not NULL already. */
  predicate Covers(t: Type, prior: Value, w: Value) {
    match t
    case Rec(fs, _) => w.Record? && Reusable(fs, prior) ==> CoversFields(fs, prior.fields, w.fields)
    case _ => true
  }

  predicate CoversField(f: Field, prior: Value, w: Value) {
    if MayOmit(f) && w == Null then prior == Null
    else match f
      case Plain(t) => Covers(t, prior, w)
      case Opt(t) => Covers(t, prior, w)
      case ImpOpt(t, _) => Covers(t, prior, w)
      case ExpOpt(t, _, _) => Covers(t, prior, w)
      case _ => true
  }

  predicate CoversFields(fs: Fields, prior: seq<Value>, ws: seq<Value>) {
    match fs
    case FNil => true
    case FCons(f, rest) =>
      prior != [] && ws != [] ==>
        CoversField(f, prior[0], ws[0]) && CoversFields(rest, prior[1..], ws[1..])
  }

  /** Any accepted octets give the same in an existing object as in a new one exactly when
      they cover the object: an optional member that they omit keeps its old value. */
  lemma {:induction false} DecodeIntoExisting(t: Type, prior: Value, s: seq<byte>)
    requires D2i(t, Null, s).Ok?
    ensures D2i(t, prior, s).Ok? && D2i(t, prior, s).used == D2i(t, Null, s).used
    ensures D2i(t, prior, s) == D2i(t, Null, s) <==> Covers(t, prior, D2i(t, Null, s).value)
    ensures D2i(t, New(t), s) == D2i(t, Null, s)
    decreases t, 0
  {
    DestinationIrrelevant(t, prior, Null, s);
    hide ReadHeader;
    hide D2iColl;
    match t
    case Prim(_) =>
    case Rec(fs, _) => RecIntoExisting(fs, prior, s);
    case Loop(_, _) =>
  }

  lemma {:induction false} RecIntoExisting(fs: Fields, prior: Value, s: seq<byte>)
    requires D2iRec(fs, Null, s).Ok?
    ensures var r := D2iRec(fs, Null, s);
            && (D2iRec(fs, prior, s) == r <==>
                  (Reusable(fs, prior) ==> CoversFields(fs, prior.fields, r.value.fields)))
            && D2iRec(fs, Record(NewFields(fs)), s) == r
    decreases fs, 1
  {
    hide ReadHeader;
    hide D2iBody;
    var h := ReadHeader(s).value;
    var body := Contents(s, h);
    BodyIntoExisting(fs, NewFields(fs), h.indefinite, h.size, body);
    BodyIntoExisting(fs, StartFields(fs, prior), h.indefinite, h.size, body);
  }

  lemma {:induction false} BodyIntoExisting(
    fs: Fields, start: seq<Value>, indefinite: bool, size: nat, body: seq<byte>)
    requires |start| == Count(fs) && D2iBody(fs, NewFields(fs), indefinite, size, body).Ok?
    ensures var r := D2iBody(fs, NewFields(fs), indefinite, size, body);
            && D2iBody(fs, start, indefinite, size, body).Ok?
            && (D2iBody(fs, start, indefinite, size, body) == r <==> CoversFields(fs, start, r.value.fields))
    decreases fs, 0, 1
  {
    hide D2iFields;
    hide CoversFields;
    FieldsIrrelevant(fs, start, NewFields(fs), body);
    FieldsIntoExisting(fs, start, body);
  }

  lemma {:induction false} FieldIntoExisting(f: Field, prior: Value, s: seq<byte>)
    requires D2iField(f, NewField(f), s).Ok?
    ensures var r := D2iField(f, NewField(f), s);
            D2iField(f, prior, s) == r <==> CoversField(f, prior, r.value)
    decreases f, 0
  {
    FieldIrrelevant(f, prior, NewField(f), s);
    hide D2i;
    hide ReadHeader;
    hide D2iColl;
    hide Covers;
    hide ExpBudget;
    if !Skips(f, s) {
      match f
      case Plain(t) =>
        DestinationIrrelevant(t, New(t), Null, s);
        DecodeIntoExisting(t, prior, s);
      case Opt(t) => DecodeIntoExisting(t, prior, s);
      case ImpOpt(t, _) => DecodeIntoExisting(t, prior, Rewritten(t, s));
      case ExpOpt(t, _, _) => DecodeIntoExisting(t, prior, ExpBudget(s, ReadHeader(s).value));
      case _ =>
    }
  }

  lemma {:induction false} FieldsIntoExisting(fs: Fields, prior: seq<Value>, s: seq<byte>)
    requires |prior| == Count(fs) && D2iFields(fs, NewFields(fs), s).FieldsOk?
    ensures var r := D2iFields(fs, NewFields(fs), s);
            D2iFields(fs, prior, s) == r <==> CoversFields(fs, prior, r.values)
    decreases fs, 0, 0
  {
    FieldsIrrelevant(fs, prior, NewFields(fs), s);
    hide D2iField;
    hide CoversField;
    match fs
    case FNil =>
    case FCons(f, rest) =>
      assert NewFields(fs)[0] == NewField(f) && NewFields(fs)[1..] == NewFields(rest);
      var r, p := D2iField(f, NewField(f), s), D2iField(f, prior[0], s);
      FieldIrrelevant(f, prior[0], NewField(f), s);
      FieldIntoExisting(f, prior[0], s);
      FieldsIntoExisting(rest, prior[1..], s[r.used..]);
      FieldsIrrelevant(rest, prior[1..], NewFields(rest), s[r.used..]);
      SameCons(p.value, D2iFields(rest, prior[1..], s[r.used..]).values,
               r.value, D2iFields(rest, NewFields(rest), s[r.used..]).values);
  }

  lemma SameCons(v: Value, vs: seq<Value>, w: Value, ws: seq<Value>)
    ensures [v] + vs == [w] + ws <==> v == w && vs == ws
    ensures ([w] + ws)[0] == w && ([w] + ws)[1..] == ws
  {
    if [v] + vs == [w] + ws {
      assert ([v] + vs)[0] == v && ([v] + vs)[1..] == vs;
    }
  }

  // ----- blank objects -----

  /** Every optional member of the object is NULL, at every level that a decode reuses. */
  predicate Blank(t: Type, prior: Value) {
    match t
    case Rec(fs, _) => Reusable(fs, prior) ==> BlankFields(fs, prior.fields)
    case _ => true
  }

  predicate BlankFields(fs: Fields, prior: seq<Value>) {
    match fs
    case FNil => true
    case FCons(f, rest) =>
      prior != [] ==> BlankField(f, prior[0]) && BlankFields(rest, prior[1..])
  }

  predicate BlankField(f: Field, prior: Value) {
    if MayOmit(f) then prior == Null
    else if f.Plain? then Blank(f.t, prior)
    else true
  }

  lemma {:induction false} BlankIsCovered(t: Type, prior: Value, w: Value)
    requires Blank(t, prior)
    ensures Covers(t, prior, w)
    decreases t
  {
    match t
    case Rec(fs, _) =>
      if w.Record? && Reusable(fs, prior) {
        BlankFieldsCovered(fs, prior.fields, w.fields);
      }
    case _ =>
  }

  lemma {:induction false} BlankFieldsCovered(fs: Fields, prior: seq<Value>, ws: seq<Value>)
    requires BlankFields(fs, prior)
    ensures CoversFields(fs, prior, ws)
    decreases fs
  {
    match fs
    case FNil =>
    case FCons(f, rest) =>
      if prior != [] && ws != [] {
        BlankFieldsCovered(rest, prior[1..], ws[1..]);
        if f.Plain? {
          BlankIsCovered(f.t, prior[0], ws[0]);
        }
      }
  }

  /** On `s`, the object is as good as a new one. */
  predicate AsGoodAsNew(t: Type, prior: Value, s: seq<byte>) {
    var r := D2i(t, Null, s);
    if r.Ok? then D2i(t, prior, s) == r else D2i(t, prior, s).Err?
  }

  /** A blank object is as good as a new one on any octets. */
  lemma BlankIsGood(t: Type, prior: Value, s: seq<byte>)
    requires Blank(t, prior)
    ensures AsGoodAsNew(t, prior, s)
  {
    hide D2i;
    hide Covers;
    DestinationIrrelevant(t, prior, Null, s);
    var r := D2i(t, Null, s);
    if r.Ok? {
      DecodeIntoExisting(t, prior, s);
      BlankIsCovered(t, prior, r.value);
    }
  }

  /** The message that omits every optional field. */
  function Bare(t: Type): (v: Value)
    ensures Fits(t, v)
  {
    match t
    case Prim(_) => Octets([])
    case Rec(fs, _) => Record(BareFields(fs))
    case Loop(_, _) => Stack([])
  }

  function BareFields(fs: Fields): (vs: seq<Value>)
    ensures FieldsFit(fs, vs)
  {
    match fs
    case FNil => []
    case FCons(f, rest) => [BareField(f)] + BareFields(rest)
  }

  function BareField(f: Field): (v: Value)
    ensures FieldFits(f, v) && (MayOmit(f) <==> v == Null) && (MayOmit(f) <==> Omitted(f, v))
  {
    if MayOmit(f) then Null else if f.Plain? then Bare(f.t) else Stack([])
  }

  lemma {:induction false} BareCovers(t: Type, prior: Value)
    ensures Covers(t, prior, Bare(t)) <==> Blank(t, prior)
    decreases t
  {
    match t
    case Rec(fs, _) => if Reusable(fs, prior) { BareCoversFields(fs, prior.fields); }
    case _ =>
  }

  lemma {:induction false} BareCoversFields(fs: Fields, prior: seq<Value>)
    requires |prior| == Count(fs)
    ensures CoversFields(fs, prior, BareFields(fs)) <==> BlankFields(fs, prior)
    decreases fs
  {
    match fs
    case FNil =>
    case FCons(f, rest) =>
      BareCoversFields(rest, prior[1..]);
      assert BareFields(fs)[0] == BareField(f) && BareFields(fs)[1..] == BareFields(rest);
      if f.Plain? {
        BareCovers(f.t, prior[0]);
      }
  }

  lemma {:induction false} BareIsCanon(t: Type)
    ensures Canon(t, Bare(t))
    decreases t
  {
    match t
    case Rec(fs, _) => BareFieldsAreCanon(fs);
    case _ =>
  }

  lemma {:induction false} BareFieldsAreCanon(fs: Fields)
    ensures CanonFields(fs, BareFields(fs))
    decreases fs
  {
    match fs
    case FNil =>
    case FCons(f, rest) =>
      BareFieldsAreCanon(rest);
      BareFieldIsCanon(f);
  }

  lemma EmptyIsCanon(elem: Type, isSet: bool)
    ensures CanonColl(elem, isSet, [])
  {
    hide Canon;
  }

  lemma {:induction false} BareFieldIsCanon(f: Field)
    ensures CanonField(f, BareField(f))
    decreases f
  {
    match f
    case Plain(t) => BareIsCanon(t);
    case Coll(elem, isSet, _, _) => EmptyIsCanon(elem, isSet);
    case _ =>
  }

  /** An object is as good as a new one on all octets exactly when it is blank. */
  lemma BlankObject(t: Type, prior: Value)
    requires Distinct(t) && |I2d(t, Bare(t))| <= INT_MAX
    ensures (forall s: seq<byte> :: AsGoodAsNew(t, prior, s)) <==> Blank(t, prior)
  {
    hide AsGoodAsNew;
    hide Bare;
    hide I2d;
    hide Blank;
    if Blank(t, prior) {
      forall s: seq<byte> ensures AsGoodAsNew(t, prior, s) {
        BlankIsGood(t, prior, s);
      }
    } else {
      BareShowsThrough(t, prior);
      assert !AsGoodAsNew(t, prior, I2d(t, Bare(t)));
    }
  }

  lemma BareShowsThrough(t: Type, prior: Value)
    requires Distinct(t) && |I2d(t, Bare(t))| <= INT_MAX && !Blank(t, prior)
    ensures !AsGoodAsNew(t, prior, I2d(t, Bare(t)))
  {
    hide D2i;
    hide I2d;
    hide Covers;
    hide Canon;
    var v := Bare(t);
    BareIsCanon(t);
    RoundTrip(t, v, []);
    assert I2d(t, v) + [] == I2d(t, v);
    BareCovers(t, prior);
    DecodeIntoExisting(t, prior, I2d(t, v));
  }

  /** A canonical value comes back into an existing object exactly when it covers it. */
  lemma RoundTripOver(t: Type, prior: Value, v: Value, rest: seq<byte>)
    requires Distinct(t) && Fits(t, v) && Canon(t, v) && |I2d(t, v)| <= INT_MAX
    ensures D2i(t, prior, I2d(t, v) + rest) == Ok(v, |I2d(t, v)|) <==> Covers(t, prior, v)
  {
    hide D2i;
    hide I2d;
    hide Covers;
    RoundTrip(t, v, rest);
    DecodeIntoExisting(t, prior, I2d(t, v) + rest);
  }
}
