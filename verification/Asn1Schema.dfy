/**
 Schemas: the field lists that a `d2i_X`/`i2d_X` pair built from the M_ASN1_* macros
 spells out, one constructor per macro family, and the C objects they read and write.
 */
module Asn1Schema {
  import opened Wrappers
  import opened X690

  /** Universal tag numbers of primitive types; 0 is the end-of-contents tag. */
  type PrimTag = t: byte | 1 <= t <= 30 witness 4

  /** Context-specific tag numbers in the one-octet form. */
  type CtxTag = t: byte | t <= 30

  /** The `func` argument of a macro: a leaf codec, a record whose own codec is made of
      these macros, or a SEQUENCE read by a loop on `M_ASN1_D2I_end_sequence`.
      `indefinite` says that the encoder uses `INF_seq_start`/`INF_seq_end`. */
  datatype Type =
    | Prim(tag: PrimTag)
    | Rec(fields: Fields, indefinite: bool)
    | Loop(elem: Type, indefinite: bool)

  datatype Fields = FNil | FCons(head: Field, tail: Fields)

  /** How a SET OF / SEQUENCE OF is tagged: V_ASN1_UNIVERSAL or V_ASN1_CONTEXT_SPECIFIC. */
  datatype Tagging = Universal | Context(tag: CtxTag)

  datatype Field =
    | Plain(t: Type)                                // put / get
    | Opt(t: Type)                                  // put / get_opt
    | ImpOpt(t: Type, tag: CtxTag)                  // put_IMP_opt / get_IMP_opt
    | ExpOpt(t: Type, tag: CtxTag, indefinite: bool)  // put_EXP_opt / get_EXP_opt
    | Coll(elem: Type, isSet: bool, tagging: Tagging, opt: bool)
      // put_{SET,SEQUENCE,IMP_SET,IMP_SEQUENCE}[_opt] / get_{set,seq,IMP_set}[_opt]
    | ExpColl(elem: Type, isSet: bool, tag: CtxTag)
      // put_EXP_{SET,SEQUENCE}_opt / get_EXP_set_opt

  /** A C value: a NULL pointer, an ASN1_STRING, a structure, or a STACK_OF. */
  datatype Value =
    | Null
    | Octets(content: seq<byte>)
    | Record(fields: seq<Value>)
    | Stack(elems: seq<Value>)

  function Count(fs: Fields): nat {
    match fs
    case FNil => 0
    case FCons(_, rest) => 1 + Count(rest)
  }

  // ----- C's type discipline -----

  /** `v` is a non-NULL object of type `t` with every mandatory part present. */
  predicate Fits(t: Type, v: Value)
    decreases t, 0
  {
    match t
    case Prim(_) => v.Octets?
    case Rec(fs, _) => v.Record? && FieldsFit(fs, v.fields)
    case Loop(elem, _) => v.Stack? && AllFit(elem, v.elems)
  }

  predicate AllFit(t: Type, vs: seq<Value>)
    decreases t, 1
  {
    forall i :: 0 <= i < |vs| ==> Fits(t, vs[i])
  }

  predicate FieldFits(f: Field, v: Value) {
    match f
    case Plain(t) => Fits(t, v)
    case Opt(t) => v.Null? || Fits(t, v)
    case ImpOpt(t, _) => v.Null? || Fits(t, v)
    case ExpOpt(t, _, _) => v.Null? || Fits(t, v)
    case Coll(elem, _, _, opt) => (opt && v.Null?) || (v.Stack? && AllFit(elem, v.elems))
    case ExpColl(elem, _, _) => v.Null? || (v.Stack? && AllFit(elem, v.elems))
  }

  predicate FieldsFit(fs: Fields, vs: seq<Value>) {
    match fs
    case FNil => vs == []
    case FCons(f, rest) => vs != [] && FieldFits(f, vs[0]) && FieldsFit(rest, vs[1..])
  }

  /** The put macro writes nothing: a NULL pointer, or an empty stack under an `_opt` guard. */
  predicate Omitted(f: Field, v: Value) {
    match f
    case Coll(_, _, _, opt) => v.Null? || (opt && v == Stack([]))
    case ExpColl(_, _, _) => v.Null? || v == Stack([])
    case _ => v.Null?
  }

  lemma FieldsFitCount(fs: Fields, vs: seq<Value>)
    requires FieldsFit(fs, vs)
    ensures |vs| == Count(fs)
  {
  }

  // ----- identifier octets and guards -----

  const SEQUENCE_IDENT: byte := UNIVERSAL + CONSTRUCTED + SEQUENCE

  /** The identifier octet of an explicit tag. */
  function ExplicitIdent(tag: CtxTag): byte {
    CONTEXT_SPECIFIC + CONSTRUCTED + tag
  }

  function TypeIdent(t: Type): byte {
    match t
    case Prim(tag) => tag
    case _ => SEQUENCE_IDENT
  }

  /** The universal tag number of `t`: the `type` argument of get_opt and get_IMP_opt. */
  function TypeTag(t: Type): (tag: byte)
    ensures 1 <= tag <= 30
  {
    WithoutConstructed(TypeIdent(t))
  }

  function CollIdent(isSet: bool, tagging: Tagging): byte {
    match tagging
    case Universal => UNIVERSAL + CONSTRUCTED + (if isSet then SET else SEQUENCE)
    case Context(tag) => CONTEXT_SPECIFIC + CONSTRUCTED + tag
  }

  /** The first octet of whatever the put macro writes for a field that is not omitted. */
  function FieldIdent(f: Field): byte {
    match f
    case Plain(t) => TypeIdent(t)
    case Opt(t) => TypeIdent(t)
    case ImpOpt(t, tag) => CONTEXT_SPECIFIC + tag + ConstructedBit(TypeIdent(t))
    case ExpOpt(_, tag, _) => ExplicitIdent(tag)
    case Coll(_, isSet, tagging, _) => CollIdent(isSet, tagging)
    case ExpColl(_, _, tag) => ExplicitIdent(tag)
  }

  predicate MayOmit(f: Field) {
    match f
    case Plain(_) => false
    case Coll(_, _, _, opt) => opt
    case _ => true
  }

  /** The test each get macro makes on `M_ASN1_next` before it reads. get_opt and
      get_IMP_opt ignore the constructed bit, the others compare the whole octet. */
  predicate Guard(f: Field, next: byte) {
    match f
    case Plain(_) => true
    case Opt(t) => WithoutConstructed(next) == UNIVERSAL + TypeTag(t)
    case ImpOpt(_, tag) => WithoutConstructed(next) == CONTEXT_SPECIFIC + tag
    case ExpOpt(_, tag, _) => next == ExplicitIdent(tag)
    case Coll(_, isSet, tagging, opt) => !opt || next == CollIdent(isSet, tagging)
    case ExpColl(_, _, tag) => next == ExplicitIdent(tag)
  }

  // ----- distinguishable optional fields -----

  /** No field that may come next when `f` is omitted is taken for `f`. */
  predicate Clear(f: Field, rest: Fields) {
    match rest
    case FNil => true
    case FCons(g, more) => !Guard(f, FieldIdent(g)) && (MayOmit(g) ==> Clear(f, more))
  }

  predicate Distinct(t: Type) {
    match t
    case Prim(_) => true
    case Rec(fs, _) => FieldsDistinct(fs)
    case Loop(elem, _) => Distinct(elem)
  }

  predicate FieldDistinct(f: Field) {
    match f
    case Plain(t) => Distinct(t)
    case Opt(t) => Distinct(t)
    case ImpOpt(t, _) => Distinct(t)
    case ExpOpt(t, _, _) => Distinct(t)
    case Coll(elem, _, _, _) => Distinct(elem)
    case ExpColl(elem, _, _) => Distinct(elem)
  }

  predicate FieldsDistinct(fs: Fields) {
    match fs
    case FNil => true
    case FCons(f, rest) =>
      FieldDistinct(f) && FieldsDistinct(rest) && (MayOmit(f) ==> Clear(f, rest))
  }
}
