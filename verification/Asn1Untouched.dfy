/**
 When a failed decode leaves the object it was given as it was. The macros restore the
 pointers and not the members, so it depends on which fields the octets hold.
 */
module Asn1Untouched {
  import opened Wrappers
  import opened X690
  import opened Asn1Schema
  import opened Asn1Decoding
  import opened Asn1Destination

  // ----- octets that store nothing -----

  /** `asn1_GetSequence` fails. */
  predicate HeaderRefused(s: seq<byte>) {
    ReadHeader(s).None? || s[0] != SEQUENCE_IDENT
  }

  /** Refused octets that store nothing before they are refused. A leaf and a collection are
      stored when they are complete; a structure stores field by field. */
  predicate Silent(t: Type, s: seq<byte>)
    decreases t, 0
  {
    match t
    case Rec(fs, _) => HeaderRefused(s) || SilentFields(fs, Contents(s, ReadHeader(s).value))
    case _ => true
  }

  /** No field is present, or the first one that is cannot be read and stores nothing. */
  predicate SilentFields(fs: Fields, s: seq<byte>)
    decreases fs, 1
  {
    match fs
    case FNil => true
    case FCons(f, rest) =>
      if Skips(f, s) then SilentFields(rest, s)
      else D2iField(f, Null, s).Err? && SilentField(f, s)
  }

  /** An explicit field must fail in its header or inside: when it misses its closing octets
      the value inside has been stored. */
  predicate SilentField(f: Field, s: seq<byte>)
    requires !Skips(f, s)
    decreases f, 0
  {
    match f
    case Plain(t) => Silent(t, s)
    case Opt(t) => Silent(t, s)
    case ImpOpt(t, _) => Silent(t, Rewritten(t, s))
    case ExpOpt(t, _, _) =>
      ReadHeader(s).Some? ==>
        var inside := ExpBudget(s, ReadHeader(s).value);
        D2i(t, Null, inside).Err? && Silent(t, inside)
    case Coll(_, _, _, _) => true
    case ExpColl(elem, isSet, _) =>
      ReadHeader(s).Some? ==>
        D2iColl(elem, CollIdent(isSet, Universal), ExpBudget(s, ReadHeader(s).value)).AllErr?
  }

  // ----- they keep every object -----

  lemma {:induction false} SilentKeeps(t: Type, prior: Value, s: seq<byte>)
    requires D2i(t, prior, s).Err? && Silent(t, s)
    ensures D2i(t, prior, s).left == prior
    decreases t, 0
  {
    hide ReadHeader;
    match t
    case Prim(_) =>
    case Rec(fs, _) =>
      if Reusable(fs, prior) && !HeaderRefused(s) {
        var h := ReadHeader(s).value;
        SilentFieldsKeep(fs, prior.fields, Contents(s, h));
        BodyLeft(fs, prior.fields, h.indefinite, h.size, Contents(s, h));
      }
    case Loop(_, _) =>
  }

  /** What a failing body leaves: the members stored so far. */
  lemma BodyLeft(fs: Fields, start: seq<Value>, indefinite: bool, size: nat, body: seq<byte>)
    requires |start| == Count(fs) && D2iBody(fs, start, indefinite, size, body).Err?
    ensures var list := D2iFields(fs, start, body);
            D2iBody(fs, start, indefinite, size, body).left
              == Record(if list.FieldsOk? then list.values else list.left)
  {
    hide D2iFields;
  }

  lemma {:induction false} SilentFieldsKeep(fs: Fields, prior: seq<Value>, s: seq<byte>)
    requires |prior| == Count(fs) && SilentFields(fs, s)
    ensures var r := D2iFields(fs, prior, s);
            (if r.FieldsOk? then r.values else r.left) == prior
    decreases fs, 1
  {
    hide D2iField;
    hide SilentField;
    match fs
    case FNil =>
    case FCons(f, rest) =>
      assert prior == [prior[0]] + prior[1..];
      if Skips(f, s) {
        SkipStep(f, prior[0], s);
        SilentFieldsKeep(rest, prior[1..], s);
      } else {
        FieldIrrelevant(f, Null, prior[0], s);
        SilentFieldKeeps(f, prior[0], s);
      }
  }

  lemma SkipStep(f: Field, prior: Value, s: seq<byte>)
    requires Skips(f, s)
    ensures D2iField(f, prior, s) == Ok(prior, 0) && s[0..] == s
  {
  }

  lemma {:induction false} SilentFieldKeeps(f: Field, prior: Value, s: seq<byte>)
    requires !Skips(f, s) && D2iField(f, prior, s).Err? && SilentField(f, s)
    ensures D2iField(f, prior, s).left == prior
    decreases f, 0
  {
    hide D2i;
    hide D2iColl;
    hide ReadHeader;
    hide ExpBudget;
    hide Rewritten;
    hide Silent;
    match f
    case Plain(t) => SilentKeeps(t, prior, s);
    case Opt(t) => SilentKeeps(t, prior, s);
    case ImpOpt(t, _) => SilentKeeps(t, prior, Rewritten(t, s));
    case ExpOpt(t, _, _) =>
      if ReadHeader(s).Some? {
        var inside := ExpBudget(s, ReadHeader(s).value);
        DestinationIrrelevant(t, Null, prior, inside);
        SilentKeeps(t, prior, inside);
      }
    case Coll(_, _, _, _) =>
    case ExpColl(_, _, _) =>
  }

  // ----- all others change some object -----

  /** An object that `s` changes: NULL in the member that is stored first. */
  function Changed(t: Type, s: seq<byte>): Value
    decreases t, 0
  {
    match t
    case Rec(fs, _) =>
      if HeaderRefused(s) then Null else Record(ChangedFields(fs, Contents(s, ReadHeader(s).value)))
    case _ => Null
  }

  function ChangedFields(fs: Fields, s: seq<byte>): (r: seq<Value>)
    ensures |r| == Count(fs)
    decreases fs, 1
  {
    match fs
    case FNil => []
    case FCons(f, rest) =>
      if Skips(f, s) then [Null] + ChangedFields(rest, s)
      else [ChangedField(f, s)] + Nulls(Count(rest))
  }

  function ChangedField(f: Field, s: seq<byte>): Value
    requires !Skips(f, s)
    decreases f, 0
  {
    if D2iField(f, Null, s).Ok? then Null
    else match f
      case Plain(t) => Changed(t, s)
      case Opt(t) => Changed(t, s)
      case ImpOpt(t, _) => Changed(t, Rewritten(t, s))
      case ExpOpt(t, _, _) =>
        if ReadHeader(s).None? || D2i(t, Null, ExpBudget(s, ReadHeader(s).value)).Ok? then Null
        else Changed(t, ExpBudget(s, ReadHeader(s).value))
      case _ => Null
  }

  function Nulls(n: nat): (r: seq<Value>)
    ensures |r| == n
  {
    if n == 0 then [] else [Null] + Nulls(n - 1)
  }

  lemma {:induction false} LoudChanges(t: Type, s: seq<byte>)
    requires D2i(t, Null, s).Err? && !Silent(t, s)
    ensures var r := D2i(t, Changed(t, s), s);
            r.Err? && r.left != Changed(t, s)
    decreases t, 0
  {
    hide ReadHeader;
    hide D2iRec;
    hide D2iBody;
    match t
    case Rec(fs, _) =>
      var h := ReadHeader(s).value;
      var body := Contents(s, h);
      var start := ChangedFields(fs, body);
      LoudFieldsChange(fs, body);
      RecIrrelevant(fs, Null, Record(start), s);
      RecStep(fs, Record(start), s);
      BodyLeft(fs, start, h.indefinite, h.size, body);
    case _ =>
  }

  lemma {:induction false} LoudFieldsChange(fs: Fields, s: seq<byte>)
    requires !SilentFields(fs, s)
    ensures var prior := ChangedFields(fs, s);
            var r := D2iFields(fs, prior, s);
            (if r.FieldsOk? then r.values else r.left) != prior
    decreases fs, 1
  {
    hide D2iField;
    hide SilentField;
    hide ChangedField;
    var f, rest := fs.head, fs.tail;
    var prior := ChangedFields(fs, s);
    if Skips(f, s) {
      SkipStep(f, Null, s);
      LoudFieldsChange(rest, s);
      assert prior[0] == Null && prior[1..] == ChangedFields(rest, s);
      OneMore(Null, D2iFields(rest, prior[1..], s), prior);
    } else {
      LoudFieldChanges(f, s);
      FirstDiffers(fs, prior, s);
    }
  }

  lemma OneMore(v: Value, tail: FieldsReply, prior: seq<Value>)
    requires prior != [] && (if tail.FieldsOk? then tail.values else tail.left) != prior[1..]
    ensures var r := Following(v, 0, tail);
            (if r.FieldsOk? then r.values else r.left) != prior
  {
    var left := if tail.FieldsOk? then tail.values else tail.left;
    assert ([v] + left)[1..] == left;
  }

  lemma FirstDiffers(fs: Fields, prior: seq<Value>, s: seq<byte>)
    requires fs.FCons? && |prior| == Count(fs)
    requires var r := D2iField(fs.head, prior[0], s);
             (if r.Ok? then r.value else r.left) != prior[0]
    ensures var r := D2iFields(fs, prior, s);
            (if r.FieldsOk? then r.values else r.left) != prior
  {
    hide D2iField;
    var r := D2iFields(fs, prior, s);
    assert (if r.FieldsOk? then r.values else r.left)[0] != prior[0];
  }

  lemma {:induction false} LoudFieldChanges(f: Field, s: seq<byte>)
    requires !Skips(f, s) && !(D2iField(f, Null, s).Err? && SilentField(f, s))
    ensures var r := D2iField(f, ChangedField(f, s), s);
            (if r.Ok? then r.value else r.left) != ChangedField(f, s)
    decreases f, 0
  {
    FieldIrrelevant(f, Null, ChangedField(f, s), s);
    hide D2i;
    hide D2iColl;
    hide ReadHeader;
    hide ExpBudget;
    hide Rewritten;
    hide Silent;
    hide Changed;
    if D2iField(f, Null, s).Ok? {
      PresentIsStored(f, s);
    } else {
      match f
      case Plain(t) => LoudChanges(t, s);
      case Opt(t) => LoudChanges(t, s);
      case ImpOpt(t, _) => LoudChanges(t, Rewritten(t, s));
      case ExpOpt(t, _, _) =>
        var inside := ExpBudget(s, ReadHeader(s).value);
        if D2i(t, Null, inside).Err? {
          LoudChanges(t, inside);
        }
      case ExpColl(_, _, _) =>
    }
  }

  lemma PresentIsStored(f: Field, s: seq<byte>)
    requires !Skips(f, s) && D2iField(f, Null, s).Ok?
    ensures D2iField(f, Null, s).value != Null
  {
    hide D2i;
    hide D2iColl;
    hide ReadHeader;
    hide ExpBudget;
    hide Rewritten;
  }

  // ----- the exact condition -----

  /** The failed decode leaves the members `prior` as they were. */
  ghost predicate Keeps(fs: Fields, prior: seq<Value>, s: seq<byte>) {
    var r := D2iRec(fs, Record(prior), s);
    r.Err? && r.left == Record(prior)
  }

  /** Refused octets leave every object as it was exactly when the header is refused, or no
      field before the point of failure is present and the failing field itself stores nothing. */
  lemma UntouchedExactly(fs: Fields, s: seq<byte>)
    requires D2iRec(fs, Null, s).Err?
    ensures (forall prior: seq<Value> | |prior| == Count(fs) :: Keeps(fs, prior, s))
              <==> HeaderRefused(s) || SilentFields(fs, Contents(s, ReadHeader(s).value))
  {
    hide D2iRec;
    hide SilentFields;
    hide ReadHeader;
    hide ChangedFields;
    var t := Rec(fs, false);
    if Silent(t, s) {
      forall prior: seq<Value> | |prior| == Count(fs) ensures Keeps(fs, prior, s) {
        RecIrrelevant(fs, Null, Record(prior), s);
        SilentKeeps(t, Record(prior), s);
      }
    } else {
      LoudChanges(t, s);
      assert !Keeps(fs, Changed(t, s).fields, s);
    }
  }
}
