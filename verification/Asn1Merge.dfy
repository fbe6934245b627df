/**
 What decoding makes of an encoded value: the value itself exactly when it is canonical.
 */
module Asn1Merge {
  import opened Wrappers
  import opened X690
  import opened Asn1Schema
  import opened Asn1Encoding
  import opened Asn1Decoding
  import opened Asn1SetOrder

  // ----- what the destination holds after a successful decode -----

  /** `v` decoded over `prior`. A field that was not on the wire keeps what the destination held. */
  function Merge(t: Type, prior: Value, v: Value): Value
    decreases t, 0
  {
    match t
    case Prim(_) => v
    case Rec(fs, _) =>
      if v.Record? then Record(MergeFields(fs, StartFields(fs, prior), v.fields)) else v
    case Loop(elem, _) =>
      if v.Stack? then Stack(MergeAll(elem, v.elems)) else v
  }

  function MergeAll(t: Type, vs: seq<Value>): (r: seq<Value>)
    ensures |r| == |vs|
    decreases t, 1, |vs|
  {
    if vs == [] then [] else [Merge(t, Null, vs[0])] + MergeAll(t, vs[1..])
  }

  function MergeColl(elem: Type, isSet: bool, v: Value): Value
    decreases elem, 2
  {
    if v.Stack? then Stack(MergeAll(elem, Arrange(elem, isSet, v.elems))) else v
  }

  function MergeField(f: Field, prior: Value, v: Value): Value {
    if Omitted(f, v) then prior
    else match f
      case Plain(t) => Merge(t, prior, v)
      case Opt(t) => Merge(t, prior, v)
      case ImpOpt(t, _) => Merge(t, prior, v)
      case ExpOpt(t, _, _) => Merge(t, prior, v)
      case Coll(elem, isSet, _, _) => MergeColl(elem, isSet, v)
      case ExpColl(elem, isSet, _) => MergeColl(elem, isSet, v)
  }

  function MergeFields(fs: Fields, prior: seq<Value>, vs: seq<Value>): (r: seq<Value>)
    requires |prior| == Count(fs)
    ensures |r| == Count(fs)
  {
    match fs
    case FNil => []
    case FCons(f, rest) =>
      var v := if vs == [] then Null else vs[0];
      [MergeField(f, prior[0], v)] + MergeFields(rest, prior[1..], if vs == [] then [] else vs[1..])
  }

  /** A newly allocated destination is as good as none. */
  lemma MergeOverNew(t: Type, v: Value)
    ensures Merge(t, New(t), v) == Merge(t, Null, v)
  {
  }

  // ----- re-encoding -----

  /** What a decode makes of a value has the same encoding. */
  lemma {:induction false} MergeReencodes(t: Type, v: Value)
    requires Fits(t, v)
    ensures Fits(t, Merge(t, Null, v)) && I2d(t, Merge(t, Null, v)) == I2d(t, v)
    decreases t, 0
  {
    match t
    case Prim(_) =>
    case Rec(fs, _) => MergeReencodesFields(fs, v.fields);
    case Loop(elem, _) => MergeReencodesAll(elem, v.elems);
  }

  lemma {:induction false} MergeReencodesAll(t: Type, vs: seq<Value>)
    requires AllFit(t, vs)
    ensures AllFit(t, MergeAll(t, vs)) && I2dAll(t, MergeAll(t, vs)) == I2dAll(t, vs)
    ensures forall i :: 0 <= i < |vs| ==> I2d(t, MergeAll(t, vs)[i]) == I2d(t, vs[i])
    decreases t, 1, |vs|
  {
    hide I2d;
    hide Merge;
    if vs != [] {
      MergeReencodes(t, vs[0]);
      assert AllFit(t, vs[1..]);
      MergeReencodesAll(t, vs[1..]);
      var ws := MergeAll(t, vs);
      assert ws[1..] == MergeAll(t, vs[1..]);
      forall i | 0 <= i < |vs| ensures Fits(t, ws[i]) && I2d(t, ws[i]) == I2d(t, vs[i]) {
        if i > 0 {
          assert ws[i] == ws[1..][i - 1] && vs[i] == vs[1..][i - 1];
        }
      }
    }
  }

  lemma {:induction false} MergeReencodesColl(elem: Type, isSet: bool, tagging: Tagging, vs: seq<Value>)
    requires AllFit(elem, vs)
    ensures var ws := MergeAll(elem, Arrange(elem, isSet, vs));
            AllFit(elem, ws) && I2dColl(elem, isSet, tagging, ws) == I2dColl(elem, isSet, tagging, vs)
    decreases elem, 2
  {
    hide I2d;
    hide Merge;
    var arranged := Arrange(elem, isSet, vs);
    ArrangeFits(elem, isSet, vs);
    MergeReencodesAll(elem, arranged);
    if isSet {
      var ws := MergeAll(elem, arranged);
      SortAscends(elem, vs);
      assert Ascending(elem, ws) by {
        forall i | 0 <= i < |ws| - 1 ensures OctetsLe(I2d(elem, ws[i]), I2d(elem, ws[i + 1])) {
          assert OctetsLe(I2d(elem, arranged[i]), I2d(elem, arranged[i + 1]));
        }
      }
      AscendingIsSorted(elem, ws);
    }
  }

  lemma {:induction false} MergeReencodesField(f: Field, v: Value)
    requires FieldFits(f, v)
    ensures var w := MergeField(f, NewField(f), v);
            FieldFits(f, w) && I2dField(f, w) == I2dField(f, v)
    decreases f, 0
  {
    hide I2d;
    hide Merge;
    hide I2dColl;
    I2dFieldStarts(f, v);
    if !Omitted(f, v) {
      match f
      case Plain(t) =>
        MergeReencodes(t, v);
        MergeOverNew(t, v);
      case Opt(t) => MergeReencodes(t, v);
      case ImpOpt(t, _) => MergeReencodes(t, v);
      case ExpOpt(t, _, _) => MergeReencodes(t, v);
      case Coll(elem, isSet, tagging, _) => MergeReencodesColl(elem, isSet, tagging, v.elems);
      case ExpColl(elem, isSet, _) => MergeReencodesColl(elem, isSet, Universal, v.elems);
    }
  }

  lemma {:induction false} MergeReencodesFields(fs: Fields, vs: seq<Value>)
    requires FieldsFit(fs, vs)
    ensures var ws := MergeFields(fs, NewFields(fs), vs);
            FieldsFit(fs, ws) && I2dFields(fs, ws) == I2dFields(fs, vs)
    decreases fs, 0
  {
    hide FieldFits;
    hide I2dField;
    hide MergeField;
    match fs
    case FNil =>
    case FCons(f, rest) =>
      MergeReencodesField(f, vs[0]);
      MergeReencodesFields(rest, vs[1..]);
      var ws := MergeFields(fs, NewFields(fs), vs);
      assert NewFields(fs)[0] == NewField(f) && NewFields(fs)[1..] == NewFields(rest);
      assert ws[1..] == MergeFields(rest, NewFields(rest), vs[1..]);
  }

  // ----- canonical values -----

  /** At every level, an omitted member is NULL rather than an empty stack, and the elements
      of a SET OF are in ascending order. */
  predicate Canon(t: Type, v: Value)
    decreases t, 0
  {
    match t
    case Prim(_) => true
    case Rec(fs, _) => v.Record? ==> CanonFields(fs, v.fields)
    case Loop(elem, _) => v.Stack? ==> CanonAll(elem, v.elems)
  }

  predicate CanonAll(t: Type, vs: seq<Value>)
    decreases t, 1
  {
    forall i :: 0 <= i < |vs| ==> Canon(t, vs[i])
  }

  predicate CanonColl(elem: Type, isSet: bool, vs: seq<Value>)
    decreases elem, 2
  {
    CanonAll(elem, vs) && (isSet ==> Ascending(elem, vs))
  }

  predicate CanonField(f: Field, v: Value) {
    if Omitted(f, v) then v == Null
    else match f
      case Plain(t) => Canon(t, v)
      case Opt(t) => Canon(t, v)
      case ImpOpt(t, _) => Canon(t, v)
      case ExpOpt(t, _, _) => Canon(t, v)
      case Coll(elem, isSet, _, _) => v.Stack? ==> CanonColl(elem, isSet, v.elems)
      case ExpColl(elem, isSet, _) => v.Stack? ==> CanonColl(elem, isSet, v.elems)
  }

  predicate CanonFields(fs: Fields, vs: seq<Value>) {
    match fs
    case FNil => true
    case FCons(f, rest) => vs != [] ==> CanonField(f, vs[0]) && CanonFields(rest, vs[1..])
  }

  /** Decoding makes of a value the value itself exactly when it is canonical. */
  lemma {:induction false} MergeIdentity(t: Type, v: Value)
    requires Fits(t, v)
    ensures Merge(t, Null, v) == v <==> Canon(t, v)
    decreases t, 0
  {
    match t
    case Prim(_) =>
    case Rec(fs, _) => MergeFieldsIdentity(fs, v.fields);
    case Loop(elem, _) => MergeAllIdentity(elem, v.elems);
  }

  lemma {:induction false} MergeAllIdentity(t: Type, vs: seq<Value>)
    requires AllFit(t, vs)
    ensures MergeAll(t, vs) == vs <==> CanonAll(t, vs)
    decreases t, 1, |vs|
  {
    hide Merge;
    hide Canon;
    if vs != [] {
      MergeIdentity(t, vs[0]);
      assert AllFit(t, vs[1..]);
      MergeAllIdentity(t, vs[1..]);
      assert vs == [vs[0]] + vs[1..];
      assert MergeAll(t, vs)[1..] == MergeAll(t, vs[1..]);
      assert CanonAll(t, vs) <==> Canon(t, vs[0]) && CanonAll(t, vs[1..]) by {
        if Canon(t, vs[0]) && CanonAll(t, vs[1..]) {
          forall i | 0 <= i < |vs| ensures Canon(t, vs[i]) {
            assert i > 0 ==> vs[i] == vs[1..][i - 1];
          }
        }
      }
    }
  }

  lemma {:induction false} MergeCollIdentity(elem: Type, isSet: bool, vs: seq<Value>)
    requires AllFit(elem, vs)
    ensures MergeAll(elem, Arrange(elem, isSet, vs)) == vs <==> CanonColl(elem, isSet, vs)
    decreases elem, 2
  {
    hide Merge;
    hide Canon;
    hide I2d;
    hide OctetsLe;
    MergeAllIdentity(elem, vs);
    if isSet {
      var arranged := Arrange(elem, isSet, vs);
      if Ascending(elem, vs) {
        AscendingIsSorted(elem, vs);
      } else if MergeAll(elem, arranged) == vs {
        ArrangeFits(elem, isSet, vs);
        MergeReencodesAll(elem, arranged);
        SortAscends(elem, vs);
        SameOrder(elem, arranged, vs);
      }
    }
  }

  lemma SameOrder(t: Type, vs: seq<Value>, ws: seq<Value>)
    requires Ascending(t, vs) && |vs| == |ws|
    requires forall i :: 0 <= i < |vs| ==> I2d(t, ws[i]) == I2d(t, vs[i])
    ensures Ascending(t, ws)
  {
    hide I2d;
    hide OctetsLe;
    forall i | 0 <= i < |ws| - 1 ensures OctetsLe(I2d(t, ws[i]), I2d(t, ws[i + 1])) {
      assert OctetsLe(I2d(t, vs[i]), I2d(t, vs[i + 1]));
    }
  }

  lemma {:induction false} MergeFieldIdentity(f: Field, v: Value)
    requires FieldFits(f, v)
    ensures MergeField(f, NewField(f), v) == v <==> CanonField(f, v)
    decreases f, 0
  {
    hide Merge;
    hide Canon;
    hide MergeAll;
    I2dFieldStarts(f, v);
    if !Omitted(f, v) {
      match f
      case Plain(t) =>
        MergeIdentity(t, v);
        MergeOverNew(t, v);
      case Opt(t) => MergeIdentity(t, v);
      case ImpOpt(t, _) => MergeIdentity(t, v);
      case ExpOpt(t, _, _) => MergeIdentity(t, v);
      case Coll(elem, isSet, _, _) => MergeCollIdentity(elem, isSet, v.elems);
      case ExpColl(elem, isSet, _) => MergeCollIdentity(elem, isSet, v.elems);
    }
  }

  lemma {:induction false} MergeFieldsIdentity(fs: Fields, vs: seq<Value>)
    requires FieldsFit(fs, vs)
    ensures MergeFields(fs, NewFields(fs), vs) == vs <==> CanonFields(fs, vs)
    decreases fs, 0
  {
    hide MergeField;
    hide CanonField;
    match fs
    case FNil =>
    case FCons(f, rest) =>
      MergeFieldIdentity(f, vs[0]);
      MergeFieldsIdentity(rest, vs[1..]);
      var ws := MergeFields(fs, NewFields(fs), vs);
      assert NewFields(fs)[0] == NewField(f) && NewFields(fs)[1..] == NewFields(rest);
      assert ws[1..] == MergeFields(rest, NewFields(rest), vs[1..]);
      assert vs == [vs[0]] + vs[1..];
  }
}
