/**
 The I2D macros as the program runs them: a length pass that adds up `ret` and saves the
 inner length of every explicitly tagged field, then a put pass that moves `p`.
 */
module Asn1Encoder {
  import opened Wrappers
  import opened X690
  import opened Asn1Schema
  import opened Asn1Encoding

  // ----- writing into the output -----

  /** `b` with `s` written over it from `pos` on. */
  function Splice(b: seq<byte>, pos: nat, s: seq<byte>): (r: seq<byte>)
    requires pos + |s| <= |b|
    ensures |r| == |b|
  {
    b[..pos] + s + b[pos + |s|..]
  }

  lemma SpliceThen(b: seq<byte>, pos: nat, s: seq<byte>, t: seq<byte>)
    requires pos + |s| + |t| <= |b|
    ensures Splice(Splice(b, pos, s), pos + |s|, t) == Splice(b, pos, s + t)
  {
  }

  lemma SpliceEmpty(b: seq<byte>, pos: nat)
    requires pos <= |b|
    ensures Splice(b, pos, []) == b
  {
  }

  lemma SpliceNext(b: seq<byte>, pos: nat, s: seq<byte>, i: nat)
    requires pos + |s| <= |b| && i < |s|
    ensures Splice(b, pos, s[..i])[pos + i := s[i]] == Splice(b, pos, s[..i + 1])
  {
    var now, next := Splice(b, pos, s[..i])[pos + i := s[i]], Splice(b, pos, s[..i + 1]);
    forall k | 0 <= k < |b| ensures now[k] == next[k] {
    }
  }

  /** Replacing the first octet of a value that has been written. */
  lemma SpliceRetag(b: seq<byte>, pos: nat, s: seq<byte>, tag: CtxTag)
    requires pos + |s| <= |b| && s != []
    ensures Splice(b, pos, s)[pos] == s[0] && |Retag(s, tag)| == |s|
    ensures Splice(b, pos, s)[pos := CONTEXT_SPECIFIC + tag + ConstructedBit(s[0])]
              == Splice(b, pos, Retag(s, tag))
  {
    var now := Splice(b, pos, s)[pos := CONTEXT_SPECIFIC + tag + ConstructedBit(s[0])];
    var next := Splice(b, pos, Retag(s, tag));
    forall k | 0 <= k < |b| ensures now[k] == next[k] {
    }
  }

  method WriteOctets(out: array<byte>, pos: nat, s: seq<byte>)
    requires pos + |s| <= out.Length
    modifies out
    ensures out[..] == Splice(old(out[..]), pos, s)
  {
    hide Splice;
    SpliceEmpty(out[..], pos);
    var i := 0;
    assert s[..0] == [];
    while i < |s|
      invariant 0 <= i <= |s|
      invariant out[..] == Splice(old(out[..]), pos, s[..i])
    {
      SpliceNext(old(out[..]), pos, s, i);
      ghost var b := out[..];
      out[pos + i] := s[i];
      assert out[..] == b[pos + i := s[i]];
      i := i + 1;
    }
    assert s[..i] == s;
  }

  // ----- element lists -----

  lemma {:induction false} I2dAllAppend(t: Type, vs: seq<Value>, v: Value)
    ensures I2dAll(t, vs + [v]) == I2dAll(t, vs) + I2d(t, v)
  {
    if vs == [] {
      assert [] + [v] == [v] && I2dAll(t, [v]) == I2d(t, v) + I2dAll(t, []);
    } else {
      assert (vs + [v])[1..] == vs[1..] + [v];
      I2dAllAppend(t, vs[1..], v);
    }
  }

  lemma I2dAllEmpty(t: Type)
    ensures I2dAll(t, []) == []
  {
  }

  lemma {:induction false} I2dAllNext(t: Type, vs: seq<Value>, i: nat)
    requires i < |vs|
    ensures I2dAll(t, vs[..i + 1]) == I2dAll(t, vs[..i]) + I2d(t, vs[i])
    ensures |I2dAll(t, vs[..i + 1])| <= |I2dAll(t, vs)|
    decreases |vs| - i
  {
    hide I2d;
    assert vs[..i + 1] == vs[..i] + [vs[i]];
    I2dAllAppend(t, vs[..i], vs[i]);
    if i + 1 == |vs| {
      assert vs[..i + 1] == vs;
    } else {
      I2dAllNext(t, vs, i + 1);
    }
  }

  lemma {:induction false} InsertSize(t: Type, v: Value, vs: seq<Value>)
    ensures |I2dAll(t, Insert(t, v, vs))| == |I2d(t, v)| + |I2dAll(t, vs)|
  {
    hide I2d;
    hide OctetsLe;
    var r := Insert(t, v, vs);
    if r == [v] + vs {
    } else {
      InsertSize(t, v, vs[1..]);
      assert r[1..] == Insert(t, v, vs[1..]);
    }
  }

  lemma {:induction false} ArrangeSize(t: Type, isSet: bool, vs: seq<Value>)
    ensures |I2dAll(t, Arrange(t, isSet, vs))| == |I2dAll(t, vs)|
  {
    if isSet && vs != [] {
      ArrangeSize(t, isSet, vs[1..]);
      InsertSize(t, vs[0], Sort(t, vs[1..]));
    }
  }

  // ----- the macros -----

  /** The caller's `unsigned char **pp`, as an index into the output. */
  class OutPtr {
    const out: array<byte>
    var pos: nat

    constructor (out: array<byte>, pos: nat)
      ensures this.out == out && this.pos == pos
    {
      this.out, this.pos := out, pos;
    }
  }

  /** The locals of an i2d function, `ret` and `p`, and the memory behind `p`. */
  class EncodeCtx {
    const out: array?<byte>
    var ret: nat
    var p: nat

    /** `M_ASN1_I2D_vars`; `pp` is null in a sizing call. */
    constructor (pp: OutPtr?)
      ensures out == (if pp == null then null else pp.out) && ret == 0
    {
      out := if pp == null then null else pp.out;
      ret, p := 0, 0;
    }

    /** `p` has moved over `s`, written into what was `b`. */
    ghost predicate Wrote(b: seq<byte>, p0: nat, s: seq<byte>)
      reads this, out
    {
      out != null && p0 + |s| <= |b| && p == p0 + |s| && out[..] == Splice(b, p0, s)
    }

    /** The len macro of a field; `v` is what the EXP macros save. */
    method LenField(f: Field, a: Value) returns (v: nat)
      requires FieldFits(f, a)
      modifies this`ret
      ensures ret == old(ret) + |I2dField(f, a)|
      ensures Saved(f, a, v)
      decreases f, 0
    {
      hide I2d;
      v := 0;
      if !Omitted(f, a) {
        match f {
          case Plain(t) =>
            var n := I2dValue(t, a, null);
            ret := ret + n;
          case Opt(t) =>
            var n := I2dValue(t, a, null);
            ret := ret + n;
          case ImpOpt(t, _) =>
            var n := I2dValue(t, a, null);
            ret := ret + n;
          case ExpOpt(t, _, indefinite) =>
            v := I2dValue(t, a, null);
            ret := ret + WrapSize(indefinite, v);
          case Coll(elem, isSet, tagging, _) =>
            var n := I2dSet(elem, isSet, tagging, a.elems, null);
            ret := ret + n;
          case ExpColl(elem, isSet, _) =>
            v := I2dSet(elem, isSet, Universal, a.elems, null);
            ret := ret + WrapSize(false, v);
        }
      }
    }

    method LenFields(fs: Fields, vs: seq<Value>) returns (saved: seq<nat>)
      requires FieldsFit(fs, vs)
      modifies this`ret
      ensures ret == old(ret) + |I2dFields(fs, vs)|
      ensures AllSaved(fs, vs, saved)
      decreases fs, 0
    {
      match fs {
        case FNil =>
          saved := [];
        case FCons(f, more) =>
          var v := LenField(f, vs[0]);
          var rest := LenFields(more, vs[1..]);
          saved := [v] + rest;
      }
    }

    /** `ASN1_put_object(&p, 1, length, tag, class)`, or `M_ASN1_I2D_INF_seq_start`. */
    method PutHeader(ident: byte, indefinite: bool, length: nat)
      requires out != null && p + |Opening(ident, indefinite, length)| <= out.Length
      modifies this`p, out
      ensures Wrote(old(out[..]), old(p), Opening(ident, indefinite, length))
    {
      WriteOctets(out, p, Opening(ident, indefinite, length));
      p := p + |Opening(ident, indefinite, length)|;
    }

    /** `M_ASN1_I2D_INF_seq_end` */
    method PutEnd(indefinite: bool)
      requires out != null && p + |Trailer(indefinite)| <= out.Length
      modifies this`p, out
      ensures Wrote(old(out[..]), old(p), Trailer(indefinite))
    {
      WriteOctets(out, p, Trailer(indefinite));
      p := p + |Trailer(indefinite)|;
    }

    /** The put macro of a field, with the `v` its len macro saved. */
    method PutField(f: Field, a: Value, v: nat)
      requires FieldFits(f, a) && Saved(f, a, v)
      requires out != null && p + |I2dField(f, a)| <= out.Length
      modifies this`p, out
      ensures Wrote(old(out[..]), old(p), I2dField(f, a))
      decreases f, 0
    {
      hide I2d;
      hide I2dColl;
      if Omitted(f, a) {
        SpliceEmpty(out[..], p);
      } else {
        match f {
          case Plain(t) => Put(t, a);
          case Opt(t) => Put(t, a);
          case ImpOpt(t, tag) => PutImp(t, tag, a);
          case ExpOpt(t, tag, indefinite) => PutExp(t, tag, indefinite, a, v);
          case Coll(elem, isSet, tagging, _) => PutSet(elem, isSet, tagging, a.elems);
          case ExpColl(elem, isSet, tag) => PutExpSet(elem, isSet, tag, a.elems, v);
        }
      }
    }

    /** `M_ASN1_I2D_put(a, f)` */
    method Put(t: Type, a: Value)
      requires Fits(t, a)
      requires out != null && p + |I2d(t, a)| <= out.Length
      modifies this`p, out
      ensures Wrote(old(out[..]), old(p), I2d(t, a))
      decreases t, 1
    {
      var pp := new OutPtr(out, p);
      var n := I2dValue(t, a, pp);
      p := pp.pos;
    }

    /** `M_ASN1_I2D_put_IMP_opt(a, f, t)` with a non-NULL `a`. */
    method PutImp(t: Type, tag: CtxTag, a: Value)
      requires Fits(t, a)
      requires out != null && p + |I2d(t, a)| <= out.Length
      modifies this`p, out
      ensures Wrote(old(out[..]), old(p), Retag(I2d(t, a), tag))
      decreases t, 2
    {
      hide I2d;
      hide Splice;
      hide Retag;
      ghost var b, e := out[..], I2d(t, a);
      I2dStarts(t, a);
      SpliceRetag(b, p, e, tag);
      var q := p;
      Put(t, a);
      assert out[q] == out[..][q];
      out[q] := CONTEXT_SPECIFIC + tag + ConstructedBit(out[q]);
      assert out[..] == Splice(b, q, e)[q := CONTEXT_SPECIFIC + tag + ConstructedBit(e[0])];
    }

    /** `M_ASN1_I2D_put_EXP_opt(a, f, tag, v)` with a non-NULL `a`. */
    method PutExp(t: Type, tag: CtxTag, indefinite: bool, a: Value, v: nat)
      requires Fits(t, a) && v == |I2d(t, a)|
      requires out != null && p + |Wrap(ExplicitIdent(tag), indefinite, I2d(t, a))| <= out.Length
      modifies this`p, out
      ensures Wrote(old(out[..]), old(p), Wrap(ExplicitIdent(tag), indefinite, I2d(t, a)))
      decreases t, 2
    {
      hide I2d;
      hide Splice;
      hide Wrap;
      hide Opening;
      hide Trailer;
      SpliceWrapped(out[..], p, ExplicitIdent(tag), indefinite, I2d(t, a));
      PutHeader(ExplicitIdent(tag), indefinite, v);
      Put(t, a);
      PutEnd(indefinite);
    }

    /** `M_ASN1_I2D_put_{SET,SEQUENCE,IMP_SET,IMP_SEQUENCE}` */
    method PutSet(elem: Type, isSet: bool, tagging: Tagging, vs: seq<Value>)
      requires AllFit(elem, vs)
      requires out != null && p + |I2dColl(elem, isSet, tagging, vs)| <= out.Length
      modifies this`p, out
      ensures Wrote(old(out[..]), old(p), I2dColl(elem, isSet, tagging, vs))
      decreases elem, 5
    {
      var pp := new OutPtr(out, p);
      var n := I2dSet(elem, isSet, tagging, vs, pp);
      p := pp.pos;
    }

    /** `M_ASN1_I2D_put_EXP_{SET,SEQUENCE}_opt` with a non-empty stack. */
    method PutExpSet(elem: Type, isSet: bool, tag: CtxTag, vs: seq<Value>, v: nat)
      requires AllFit(elem, vs) && v == |I2dColl(elem, isSet, Universal, vs)|
      requires out != null && p + |Wrap(ExplicitIdent(tag), false, I2dColl(elem, isSet, Universal, vs))| <= out.Length
      modifies this`p, out
      ensures Wrote(old(out[..]), old(p), Wrap(ExplicitIdent(tag), false, I2dColl(elem, isSet, Universal, vs)))
      decreases elem, 6
    {
      hide I2dColl;
      hide Splice;
      hide Wrap;
      hide Opening;
      hide Trailer;
      SpliceWrapped(out[..], p, ExplicitIdent(tag), false, I2dColl(elem, isSet, Universal, vs));
      PutHeader(ExplicitIdent(tag), false, v);
      PutSet(elem, isSet, Universal, vs);
      PutEnd(false);
    }

    method PutFields(fs: Fields, vs: seq<Value>, saved: seq<nat>)
      requires FieldsFit(fs, vs) && AllSaved(fs, vs, saved)
      requires out != null && p + |I2dFields(fs, vs)| <= out.Length
      modifies this`p, out
      ensures Wrote(old(out[..]), old(p), I2dFields(fs, vs))
      decreases fs, 0
    {
      hide I2dField;
      match fs {
        case FNil =>
          SpliceEmpty(out[..], p);
        case FCons(f, more) =>
          ghost var b := out[..];
          PutField(f, vs[0], saved[0]);
          PutFields(more, vs[1..], saved[1..]);
          SpliceThen(b, old(p), I2dField(f, vs[0]), I2dFields(more, vs[1..]));
      }
    }

    /** The element loop of the put pass. */
    method PutAll(elem: Type, vs: seq<Value>)
      requires AllFit(elem, vs)
      requires out != null && p + |I2dAll(elem, vs)| <= out.Length
      modifies this`p, out
      ensures Wrote(old(out[..]), old(p), I2dAll(elem, vs))
      decreases elem, 2
    {
      hide I2d;
      hide I2dAll;
      hide Splice;
      ghost var b, p0 := out[..], p;
      SpliceEmpty(b, p);
      I2dAllEmpty(elem);
      var i := 0;
      while i < |vs|
        invariant 0 <= i <= |vs|
        invariant vs[..0] == []
        invariant Wrote(b, p0, I2dAll(elem, vs[..i]))
      {
        I2dAllNext(elem, vs, i);
        Put(elem, vs[i]);
        SpliceThen(b, p0, I2dAll(elem, vs[..i]), I2d(elem, vs[i]));
        i := i + 1;
      }
      assert vs[..i] == vs;
    }

    /** The element loop of the length pass. */
    method LenAll(elem: Type, vs: seq<Value>)
      requires AllFit(elem, vs)
      modifies this`ret
      ensures ret == old(ret) + |I2dAll(elem, vs)|
      decreases elem, 1
    {
      hide I2d;
      var i := 0;
      while i < |vs|
        invariant 0 <= i <= |vs|
        invariant ret == old(ret) + |I2dAll(elem, vs[..i])|
      {
        I2dAllNext(elem, vs, i);
        var n := I2dValue(elem, vs[i], null);
        ret := ret + n;
        i := i + 1;
      }
      assert vs[..i] == vs;
    }
  }

  /** The header that opens a value of the given content length, and what closes it. */
  function Opening(ident: byte, indefinite: bool, length: nat): seq<byte> {
    if indefinite then [ident, 0x80] else HeaderOctets(ident, length)
  }

  function Trailer(indefinite: bool): seq<byte> {
    if indefinite then EOC else []
  }

  /** `ASN1_object_size(1, length, tag)`, or the four octets of the indefinite form. */
  function WrapSize(indefinite: bool, length: nat): (r: nat)
    ensures forall ident, s: seq<byte> :: |s| == length ==> |Wrap(ident, indefinite, s)| == r
  {
    if indefinite then length + 4 else ObjectSize(length)
  }

  /** Header, contents and close, written one behind the other, make up the whole value. */
  lemma SpliceWrapped(b: seq<byte>, pos: nat, ident: byte, indefinite: bool, s: seq<byte>)
    requires pos + |Wrap(ident, indefinite, s)| <= |b|
    ensures var o, c := Opening(ident, indefinite, |s|), Trailer(indefinite);
            && |Wrap(ident, indefinite, s)| == |o| + |s| + |c|
            && Splice(Splice(Splice(b, pos, o), pos + |o|, s), pos + |o| + |s|, c)
                 == Splice(b, pos, Wrap(ident, indefinite, s))
  {
    hide Splice;
    hide LengthOctets;
    var o, c := Opening(ident, indefinite, |s|), Trailer(indefinite);
    assert Wrap(ident, indefinite, s) == o + s + c;
    SpliceThree(b, pos, o, s, c);
  }

  lemma SpliceThree(b: seq<byte>, pos: nat, o: seq<byte>, s: seq<byte>, c: seq<byte>)
    requires pos + |o| + |s| + |c| <= |b|
    ensures Splice(Splice(Splice(b, pos, o), pos + |o|, s), pos + |o| + |s|, c) == Splice(b, pos, o + s + c)
  {
    SpliceThen(b, pos, o, s);
    SpliceThen(b, pos, o + s, c);
  }

  /** `v` is the inner length that the EXP put macro will declare. */
  ghost predicate Saved(f: Field, a: Value, v: nat) {
    match f
    case ExpOpt(t, _, _) => !a.Null? ==> v == |I2d(t, a)|
    case ExpColl(elem, isSet, _) =>
      a.Stack? && a.elems != [] ==> v == |I2dColl(elem, isSet, Universal, a.elems)|
    case _ => true
  }

  ghost predicate AllSaved(fs: Fields, vs: seq<Value>, saved: seq<nat>) {
    match fs
    case FNil => true
    case FCons(f, more) =>
      vs != [] && saved != [] && Saved(f, vs[0], saved[0]) && AllSaved(more, vs[1..], saved[1..])
  }

  // ----- i2d functions -----

  /** `pp` stands behind `s`, which was written at `pos` into what was `b`. */
  ghost predicate Moved(pp: OutPtr, b: seq<byte>, pos: nat, s: seq<byte>)
    reads pp, pp.out
  {
    pos + |s| <= |b| && pp.pos == pos + |s| && pp.out[..] == Splice(b, pos, s)
  }

  /** `i2d_X(a, pp)`: the number of octets; a null `pp` is the sizing call. */
  method I2dValue(t: Type, a: Value, pp: OutPtr?) returns (r: nat)
    requires a.Null? || Fits(t, a)
    requires pp != null ==> pp.pos + |I2d(t, a)| <= pp.out.Length
    modifies pp, if pp != null then pp.out else null
    ensures r == |I2d(t, a)|
    ensures pp != null ==> Moved(pp, old(pp.out[..]), old(pp.pos), I2d(t, a))
    decreases t, 0
  {
    hide Splice;
    if a.Null? {
      if pp != null {
        SpliceEmpty(pp.out[..], pp.pos);
      }
      return 0;
    }
    match t {
      case Prim(tag) => r := I2dPrim(tag, a.content, pp);
      case Rec(fs, indefinite) => r := I2dRecord(fs, indefinite, a.fields, pp);
      case Loop(elem, indefinite) => r := I2dElements(elem, indefinite, TypeIdent(t), a.elems, a.elems, pp);
    }
  }

  method I2dPrim(tag: PrimTag, content: seq<byte>, pp: OutPtr?) returns (r: nat)
    requires pp != null ==> pp.pos + |Wrap(tag, false, content)| <= pp.out.Length
    modifies pp, if pp != null then pp.out else null
    ensures r == |Wrap(tag, false, content)|
    ensures pp != null ==> Moved(pp, old(pp.out[..]), old(pp.pos), Wrap(tag, false, content))
  {
    r := WrapSize(false, |content|);
    if pp != null {
      WriteOctets(pp.out, pp.pos, Wrap(tag, false, content));
      pp.pos := pp.pos + r;
    }
  }

  /** A structure, from `M_ASN1_I2D_vars` over `M_ASN1_I2D_seq_total` to `M_ASN1_I2D_finish`:
      both calls return the same `r`, and the writing call moves `*pp` by it. */
  method I2dRecord(fs: Fields, indefinite: bool, vs: seq<Value>, pp: OutPtr?) returns (r: nat)
    requires FieldsFit(fs, vs)
    requires pp != null ==> pp.pos + |Wrap(SEQUENCE_IDENT, indefinite, I2dFields(fs, vs))| <= pp.out.Length
    modifies pp, if pp != null then pp.out else null
    ensures r == |Wrap(SEQUENCE_IDENT, indefinite, I2dFields(fs, vs))|
    ensures pp != null ==> pp.pos == old(pp.pos) + r
    ensures pp != null ==>
              Moved(pp, old(pp.out[..]), old(pp.pos), Wrap(SEQUENCE_IDENT, indefinite, I2dFields(fs, vs)))
    decreases fs, 1
  {
    hide I2dFields;
    hide Splice;
    hide Wrap;
    hide Opening;
    hide Trailer;
    ghost var body := I2dFields(fs, vs);
    var c := new EncodeCtx(pp);
    var saved := c.LenFields(fs, vs);
    r := WrapSize(indefinite, c.ret);
    if pp == null {
      return;
    }
    c.p := pp.pos;
    SpliceWrapped(pp.out[..], pp.pos, SEQUENCE_IDENT, indefinite, body);
    c.PutHeader(SEQUENCE_IDENT, indefinite, c.ret);
    c.PutFields(fs, vs, saved);
    c.PutEnd(indefinite);
    pp.pos := c.p;
  }

  /** A header, the elements in the order `arranged`, and the close. The length pass adds
      up the elements in the order they are stored. */
  method I2dElements(
    elem: Type, indefinite: bool, ident: byte, vs: seq<Value>, arranged: seq<Value>, pp: OutPtr?)
    returns (r: nat)
    requires AllFit(elem, vs) && AllFit(elem, arranged) && |I2dAll(elem, vs)| == |I2dAll(elem, arranged)|
    requires pp != null ==> pp.pos + |Wrap(ident, indefinite, I2dAll(elem, arranged))| <= pp.out.Length
    modifies pp, if pp != null then pp.out else null
    ensures r == |Wrap(ident, indefinite, I2dAll(elem, arranged))|
    ensures pp != null ==>
              Moved(pp, old(pp.out[..]), old(pp.pos), Wrap(ident, indefinite, I2dAll(elem, arranged)))
    decreases elem, 3
  {
    hide I2dAll;
    hide Splice;
    hide Wrap;
    hide Opening;
    hide Trailer;
    ghost var body := I2dAll(elem, arranged);
    var c := new EncodeCtx(pp);
    c.LenAll(elem, vs);
    r := WrapSize(indefinite, c.ret);
    if pp == null {
      return;
    }
    c.p := pp.pos;
    SpliceWrapped(pp.out[..], pp.pos, ident, indefinite, body);
    c.PutHeader(ident, indefinite, c.ret);
    c.PutAll(elem, arranged);
    c.PutEnd(indefinite);
    pp.pos := c.p;
  }

  /** `i2d_ASN1_SET(a, pp, f, tag, class, is_set)` */
  method I2dSet(elem: Type, isSet: bool, tagging: Tagging, vs: seq<Value>, pp: OutPtr?) returns (r: nat)
    requires AllFit(elem, vs)
    requires pp != null ==> pp.pos + |I2dColl(elem, isSet, tagging, vs)| <= pp.out.Length
    modifies pp, if pp != null then pp.out else null
    ensures r == |I2dColl(elem, isSet, tagging, vs)|
    ensures pp != null ==> Moved(pp, old(pp.out[..]), old(pp.pos), I2dColl(elem, isSet, tagging, vs))
    decreases elem, 4
  {
    ArrangeFits(elem, isSet, vs);
    ArrangeSize(elem, isSet, vs);
    hide I2dAll;
    hide AllFit;
    r := I2dElements(elem, false, CollIdent(isSet, tagging), vs, Arrange(elem, isSet, vs), pp);
  }
}
