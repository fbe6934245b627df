/**
 The D2I macros as the program runs them: a cursor over the caller's octets, a budget,
 an in-place rewrite of tag octets, and a single exit for errors.
 */
module Asn1Decoder {
  import opened Wrappers
  import opened X690
  import opened Asn1Schema
  import opened Asn1Decoding

  /** A heap structure behind a `type *`; `frees` counts the calls of its free function. */
  class Obj {
    var fields: seq<Value>
    var frees: nat

    constructor (fields: seq<Value>)
      ensures this.fields == fields && frees == 0
    {
      this.fields, frees := fields, 0;
    }

    method Free()
      modifies this`frees
      ensures frees == old(frees) + 1
    {
      frees := frees + 1;
    }
  }

  /** The caller's `type **a`. */
  class Slot {
    var obj: Obj?

    constructor (obj: Obj?)
      ensures this.obj == obj
    {
      this.obj := obj;
    }
  }

  /** The caller's `const unsigned char **pp`, as an index into the buffer. */
  class InPtr {
    var pos: nat

    constructor (pos: nat)
      ensures this.pos == pos
    {
      this.pos := pos;
    }
  }

  /** ASN1_const_CTX. */
  class DecodeCtx {
    const buf: array<byte>
    var p: nat
    var q: nat
    var slen: int
    var max: nat  // 0 for NULL; the macros set it and never read it
    var indefinite: bool  // inf & 1
    var eos: bool
    var error: Error

    /** The budget lies inside the input, and no error has been raised. */
    ghost predicate Valid()
      reads this
    {
      0 <= slen && p + slen <= buf.Length && error == NestedError
    }

    /** The octets the next macro may read. */
    ghost function Budget(): (s: seq<byte>)
      reads this, buf
      requires Valid()
    {
      buf[p..p + slen]
    }

    /** What a macro that decides `r` from the budget does to the cursor. */
    ghost predicate After(r: Reply, p0: nat, q0: nat, slen0: int, ok: bool, b: Value)
      reads this
    {
      match r
      case Ok(v, used) =>
        && ok && b == v && Valid()
        && p == p0 + used && slen == slen0 - used
        && q == (if used == 0 then q0 else p0)
      case Err(e, _, left) => !ok && b == left && q == p0 && error == e
    }

    /** `M_ASN1_D2I_vars` and `M_ASN1_D2I_Init`. */
    constructor (buf: array<byte>, pos: nat, length: nat)
      ensures this.buf == buf && p == q == pos && error == NestedError && slen == 0
      ensures max == (if length == 0 then 0 else pos + length)
    {
      this.buf := buf;
      p, q, slen := pos, pos, 0;
      max := if length == 0 then 0 else pos + length;
      indefinite, eos, error := false, false, NestedError;
    }

    /** `M_ASN1_D2I_start_sequence`, for a given identifier octet. */
    method StartSequence(ident: byte, length: nat) returns (ok: bool)
      requires p + length <= buf.Length && error == NestedError
      modifies this
      ensures q == old(q)
      ensures var s := buf[old(p)..old(p) + length];
              match ReadHeader(s)
              case None => !ok && error == BadObjectHeader
              case Some(h) =>
                if s[0] != ident then !ok && error == WrongTag
                else ok && Valid() && p == old(p) + h.size && indefinite == h.indefinite && !eos
                     && Budget() == Contents(s, h)
    {
      hide ReadHeader;
      hide Contents;
      match ReadHeader(buf[p..p + length]) {
        case None =>
          error := BadObjectHeader;
          ok := false;
        case Some(h) =>
          if buf[p] != ident {
            error := WrongTag;
            ok := false;
          } else {
            p := p + h.size;
            indefinite, eos := h.indefinite, false;
            slen := if h.indefinite then length - h.size else h.length;
            ok := true;
            ContentsAt(old(p), length, h);
          }
      }
    }

    /** A window of the `n` octets at `from`. */
    lemma WindowAt(from: nat, n: nat, i: nat, m: nat)
      requires from + n <= buf.Length && i + m <= n
      ensures buf[from..from + n][i..i + m] == buf[from + i..from + i + m]
    {
      var inner, direct := buf[from..from + n][i..i + m], buf[from + i..from + i + m];
      forall k | 0 <= k < m ensures inner[k] == direct[k] {
      }
    }

    lemma ContentsAt(from: nat, n: nat, h: Header)
      requires from + n <= buf.Length && 2 <= h.size <= h.size + h.length <= n
      ensures var len := if h.indefinite then n - h.size else h.length;
              Contents(buf[from..from + n], h) == buf[from + h.size..from + h.size + len]
    {
      var len := if h.indefinite then n - h.size else h.length;
      var s := buf[from..from + n];
      assert Contents(s, h) == s[h.size..h.size + len];
      hide Contents;
      WindowAt(from, n, h.size, len);
    }

    lemma ExpBudgetAt(from: nat, n: nat, h: Header)
      requires from + n <= buf.Length && ReadHeader(buf[from..from + n]) == Some(h)
      ensures var s := buf[from..from + n];
              var len := Tlen(s, h);
              && h.size + len <= n
              && ExpBudget(s, h) == (if len < 0 then [] else buf[from + h.size..from + h.size + len])
    {
      hide ReadHeader;
      var s := buf[from..from + n];
      var len := Tlen(s, h);
      if len >= 0 {
        WindowAt(from, n, h.size, len);
      }
    }

    /** `M_ASN1_D2I_end_sequence`. The indefinite test steps over the two octets it finds
        and leaves `slen` alone. */
    method AtEnd() returns (done: bool)
      requires Valid()
      modifies this`p, this`eos
      ensures done == EndSequence(old(Budget()), indefinite)
      ensures p == old(p) + (if done && indefinite then 2 else 0)
      ensures p + slen == old(p + slen) + (if done && indefinite then 2 else 0)
      ensures eos == (if indefinite then done else old(eos))
    {
      if !indefinite {
        done := slen <= 0;
      } else {
        eos := AtEoc(buf[p..p + slen]);
        if eos {
          p := p + 2;
        }
        done := eos;
      }
    }

    /** `asn1_const_Finish`. */
    method Finish() returns (ok: bool)
      requires eos || Valid()
      requires eos ==> error == NestedError && indefinite
      modifies this`p, this`error
      ensures old(eos) ==> ok && p == old(p)
      ensures !old(eos) && indefinite ==>
                ok == AtEoc(old(Budget())) && (ok ==> p == old(p) + 2) && (!ok ==> error == MissingEos)
      ensures !old(eos) && !indefinite ==>
                ok == (slen == 0) && p == old(p) && (!ok ==> error == LengthMismatch)
      ensures ok ==> error == NestedError
    {
      ok := true;
      if indefinite && !eos {
        if AtEoc(buf[p..p + slen]) {
          p := p + 2;
        } else {
          error := MissingEos;
          ok := false;
        }
      } else if !indefinite && slen != 0 {
        error := LengthMismatch;
        ok := false;
      }
    }

    /** `M_ASN1_D2I_get(b, func)` */
    method Get(t: Type, b: Value) returns (ok: bool, b': Value)
      requires Valid()
      modifies this`p, this`q, this`slen, buf
      ensures buf[..] == old(buf[..])
      ensures After(D2iField(Plain(t), b, old(Budget())), old(p), old(q), old(slen), ok, b')
      decreases t, 1
    {
      hide D2i;
      q := p;
      var r := D2iValue(t, b, buf, p, slen);
      if r.Err? {
        return false, r.left;
      }
      p := p + r.used;
      slen := slen - (p - q);
      return true, r.value;
    }

    /** `M_ASN1_D2I_get_opt(b, func, type)` */
    method GetOpt(t: Type, b: Value) returns (ok: bool, b': Value)
      requires Valid()
      modifies this`p, this`q, this`slen, buf
      ensures buf[..] == old(buf[..])
      ensures After(D2iField(Opt(t), b, old(Budget())), old(p), old(q), old(slen), ok, b')
      decreases t, 2
    {
      hide D2i;
      ok, b' := true, b;
      if slen != 0 && WithoutConstructed(buf[p]) == UNIVERSAL + TypeTag(t) {
        ok, b' := Get(t, b);
      }
    }

    /** `M_ASN1_D2I_get_imp(b, func, type)`: the tag octet is overwritten with the universal
        one for the inner decoder and put back on either exit. */
    method GetImp(t: Type, tmp: byte, b: Value) returns (ok: bool, b': Value)
      requires Valid() && slen > 0 && tmp == buf[p]
      modifies this`p, this`q, this`slen, buf
      ensures buf[..] == old(buf[..])
      ensures After(Nested(D2i(t, b, Rewritten(t, old(Budget())))), old(p), old(q), old(slen), ok, b')
      decreases t, 1
    {
      hide D2i;
      hide IsConstructed;
      hide TypeTag;
      ghost var before := buf[..];
      ghost var octet := ConstructedBit(tmp) + TypeTag(t);
      assert before[p..p + slen] == Budget();
      buf[p] := ConstructedBit(tmp) + TypeTag(t);
      q := p;
      assert buf[..] == before[p := octet];
      assert buf[p..p + slen] == before[p..p + slen][0 := octet];
      var r := D2iValue(t, b, buf, p, slen);
      assert buf[..] == before[p := octet];
      buf[q] := tmp;
      assert buf[..] == before[p := octet][p := tmp] == before;
      if r.Err? {
        return false, r.left;
      }
      p := p + r.used;
      slen := slen - (p - q);
      b' := r.value;
      ok := true;
    }

    /** `M_ASN1_D2I_get_IMP_opt(b, func, tag, type)` */
    method GetImpOpt(t: Type, tag: CtxTag, b: Value) returns (ok: bool, b': Value)
      requires Valid()
      modifies this`p, this`q, this`slen, buf
      ensures buf[..] == old(buf[..])
      ensures After(D2iField(ImpOpt(t, tag), b, old(Budget())), old(p), old(q), old(slen), ok, b')
      decreases t, 2
    {
      hide D2i;
      hide Rewritten;
      ok, b' := true, b;
      if slen != 0 && WithoutConstructed(buf[p]) == CONTEXT_SPECIFIC + tag {
        var tmp := buf[p];
        ok, b' := GetImp(t, tmp, b);
      }
    }

    /** The head of get_EXP_opt: read the outer header and work out `Tlen`. */
    method OpenExplicit() returns (ok: bool, header: Header, tlen: int)
      requires Valid() && slen > 0
      modifies this`p, this`q, this`error
      ensures q == old(p)
      ensures match ReadHeader(old(Budget()))
              case None => !ok && error == BadObjectHeader
              case Some(h) =>
                && ok && header == h && error == NestedError
                && tlen == Tlen(old(Budget()), h)
                && p == old(p) + h.size && p <= old(p) + slen && p + tlen <= old(p) + slen
                && ExpBudget(old(Budget()), h) == (if tlen < 0 then [] else buf[p..p + tlen])
    {
      hide ReadHeader;
      hide ExpBudget;
      q := p;
      header, tlen := Header(false, 0, 0), 0;
      match ReadHeader(buf[p..p + slen]) {
        case None =>
          error := BadObjectHeader;
          ok := false;
        case Some(h) =>
          ok, header := true, h;
          p := p + h.size;
          tlen := h.length;
          if h.indefinite {
            tlen := slen - (p - q) - 2;
          }
          ExpBudgetAt(q, slen, h);
      }
    }

    /** The tail of get_EXP_opt: the closing octets of the indefinite form, then the budget. */
    method CloseExplicit(h: Header, ghost s: seq<byte>, ghost used: nat, ghost prior: Value, ghost v: Value)
      returns (ok: bool)
      requires error == NestedError && 0 <= slen && q <= p <= q + slen <= buf.Length
      requires s == buf[q..q + slen] && p == q + h.size + used
      modifies this`p, this`slen, this`error
      ensures After(Closing(h, s, prior, Ok(v, used)), q, q, old(slen), ok, v)
    {
      ok := true;
      if h.indefinite {
        assert buf[p..p + (slen - (p - q))] == s[h.size + used..];
        if AtEoc(buf[p..p + (slen - (p - q))]) {
          p := p + 2;
        } else {
          error := MissingEos;
          return false;
        }
      }
      slen := slen - (p - q);
    }

    /** `M_ASN1_D2I_get_EXP_opt(r, func, tag)`; `indef`, the form that the encoder of this
        field chooses, plays no part in reading it. */
    method GetExpOpt(t: Type, tag: CtxTag, ghost indef: bool, b: Value) returns (ok: bool, b': Value)
      requires Valid()
      modifies this`p, this`q, this`slen, this`error, buf
      ensures buf[..] == old(buf[..])
      ensures After(D2iField(ExpOpt(t, tag, indef), b, old(Budget())), old(p), old(q), old(slen), ok, b')
      decreases t, 1
    {
      hide D2i;
      hide ReadHeader;
      hide ExpBudget;
      hide Closing;
      ok, b' := true, b;
      if slen != 0 && buf[p] == ExplicitIdent(tag) {
        ghost var s := Budget();
        ExplicitStep(ExpOpt(t, tag, indef), b, s);
        hide D2iField;
        var h, tlen;
        ok, h, tlen := OpenExplicit();
        if !ok {
          return;
        }
        var r := D2iValue(t, b, buf, p, tlen);
        if r.Err? {
          ClosingFails(h, s, b, NestedError, r.left);
          return false, r.left;
        }
        p := p + r.used;
        b' := r.value;
        assert buf[q..q + slen] == s;
        ok := CloseExplicit(h, s, r.used, b, b');
      }
    }

    /** `M_ASN1_D2I_get_{set,seq,IMP_set}[_opt]`; a failed read leaves the destination alone. */
    method GetColl(elem: Type, isSet: bool, tagging: Tagging, opt: bool, b: Value) returns (ok: bool, b': Value)
      requires Valid()
      modifies this`p, this`q, this`slen, buf
      ensures buf[..] == old(buf[..])
      ensures After(D2iField(Coll(elem, isSet, tagging, opt), b, old(Budget())), old(p), old(q), old(slen), ok, b')
      decreases elem, 6
    {
      hide D2iColl;
      ok, b' := true, b;
      if !opt || (slen != 0 && buf[p] == CollIdent(isSet, tagging)) {
        ok, b' := GetImpSet(elem, CollIdent(isSet, tagging), b);
      }
    }

    /** `M_ASN1_D2I_get_imp_set(r, func, free_func, a, b)` */
    method GetImpSet(elem: Type, ident: byte, b: Value) returns (ok: bool, b': Value)
      requires Valid()
      modifies this`p, this`q, this`slen, buf
      ensures buf[..] == old(buf[..])
      ensures After(NestedColl(b, D2iColl(elem, ident, old(Budget()))), old(p), old(q), old(slen), ok, b')
      decreases elem, 5
    {
      hide D2iColl;
      q := p;
      var r := D2iCollection(elem, ident, buf, p, slen);
      if r.AllErr? {
        return false, b;
      }
      p := p + r.used;
      slen := slen - (p - q);
      return true, Stack(r.values);
    }

    /** `M_ASN1_D2I_get_EXP_set_opt(r, func, free_func, tag, b)` */
    method GetExpColl(elem: Type, isSet: bool, tag: CtxTag, b: Value) returns (ok: bool, b': Value)
      requires Valid()
      modifies this`p, this`q, this`slen, this`error, buf
      ensures buf[..] == old(buf[..])
      ensures After(D2iField(ExpColl(elem, isSet, tag), b, old(Budget())), old(p), old(q), old(slen), ok, b')
      decreases elem, 5
    {
      hide D2iColl;
      hide ReadHeader;
      hide ExpBudget;
      hide Closing;
      hide CollIdent;
      hide Tlen;
      ok, b' := true, b;
      if slen != 0 && buf[p] == ExplicitIdent(tag) {
        ghost var s := Budget();
        ExplicitStep(ExpColl(elem, isSet, tag), b, s);
        hide D2iField;
        var h, tlen;
        ok, h, tlen := OpenExplicit();
        if !ok {
          return;
        }
        var r := D2iCollection(elem, CollIdent(isSet, Universal), buf, p, tlen);
        if r.AllErr? {
          ClosingFails(h, s, b, NestedError, b);
          return false, b;
        }
        p := p + r.used;
        b' := Stack(r.values);
        assert buf[q..q + slen] == s;
        ok := CloseExplicit(h, s, r.used, b, b');
      }
    }

    /** The state after the loop test on `s`, which started at `p0`. */
    ghost predicate Rested(done: bool, s: seq<byte>, p0: nat)
      reads this, buf
    {
      && done == EndSequence(s, indefinite)
      && p == p0 + (if done && indefinite then 2 else 0)
      && eos == (done && indefinite)
      && (!eos ==> Valid() && Budget() == s)
    }

    /** The loop that started at `p0` has gathered `vs` and stands at `at` with `s` to read. */
    ghost predicate Looping(
      elem: Type, whole: ListReply, p0: nat, vs: seq<Value>, done: bool, s: seq<byte>, at: nat)
      reads this, buf
    {
      && p0 <= at && Rested(done, s, at)
      && whole == Resumed(vs, at - p0, D2iAll(elem, s, indefinite))
    }

    /** One turn of the element loop: `M_ASN1_D2I_get`, a push, and the loop test. */
    method Turn(elem: Type, vs: seq<Value>, ghost whole: ListReply, ghost p0: nat, ghost s: seq<byte>, ghost at: nat)
      returns (ok: bool, vs': seq<Value>, done: bool, ghost s': seq<byte>, ghost at': nat)
      requires Looping(elem, whole, p0, vs, false, s, at)
      modifies this`p, this`q, this`slen, this`eos, buf
      ensures buf[..] == old(buf[..])
      ensures ok ==> |s'| < |s| && Looping(elem, whole, p0, vs', done, s', at')
      ensures !ok ==> p0 <= q && whole == AllErr(NestedError, q - p0)
      decreases elem, 2
    {
      hide D2i;
      hide D2iAll;
      hide Resumed;
      hide EndSequence;
      ReadOne(elem, s, indefinite, vs, at - p0);
      done, vs', s', at' := false, vs, s, at;
      var v;
      ok, v := Get(elem, Null);
      if ok {
        s', at' := s[p - at..], p;
        assert Budget() == s';
        done := AtEnd();
        vs' := vs + [v];
      }
    }

    /** What the element loop does to the cursor. In the definite form it ends exactly at the
        declared end; in the indefinite form just past the two zero octets. */
    ghost predicate AfterLoop(r: ListReply, p0: nat, slen0: int, ok: bool, vs: seq<Value>)
      reads this
    {
      match r
      case AllOk(ws, used) =>
        && ok && vs == ws && p == p0 + used && eos == indefinite
        && (!indefinite ==> Valid() && slen == 0 && p == p0 + slen0)
      case AllErr(e, at) => !ok && e == NestedError && q == p0 + at
    }

    /** `while (!M_ASN1_D2I_end_sequence()) { M_ASN1_D2I_get(x, func); push x }` */
    method GetUntilEnd(elem: Type) returns (ok: bool, vs: seq<Value>)
      requires Valid() && !eos
      modifies this`p, this`q, this`slen, this`eos, buf
      ensures buf[..] == old(buf[..])
      ensures AfterLoop(D2iAll(elem, old(Budget()), indefinite), old(p), old(slen), ok, vs)
      decreases elem, 3
    {
      hide D2iAll;
      hide Resumed;
      hide EndSequence;
      ghost var s, at, p0 := Budget(), p, p;
      ghost var whole := D2iAll(elem, s, indefinite);
      assert whole.AllOk? && !indefinite ==> whole.used == slen;
      Starts(whole);
      ok, vs := true, [];
      var done := AtEnd();
      assert Looping(elem, whole, p0, vs, done, s, at);
      hide Looping;
      while !done
        invariant buf[..] == old(buf[..])
        invariant Looping(elem, whole, p0, vs, done, s, at)
        decreases |s|
      {
        ok, vs, done, s, at := Turn(elem, vs, whole, p0, s, at);
        if !ok {
          return;
        }
      }
      LoopEnds(elem, whole, p0, vs, s, at);
    }

    lemma LoopEnds(elem: Type, whole: ListReply, p0: nat, vs: seq<Value>, s: seq<byte>, at: nat)
      requires Looping(elem, whole, p0, vs, true, s, at)
      ensures whole.AllOk? && whole.values == vs && p == p0 + whole.used && eos == indefinite
      ensures !indefinite ==> Valid() && slen == 0
    {
      hide D2iAll;
      hide Resumed;
      ReadNone(elem, s, indefinite, vs, at - p0);
    }

    /** A header, the element loop, then the check in `M_ASN1_D2I_Finish`. */
    method Collection(elem: Type, ident: byte, length: nat) returns (ok: bool, vs: seq<Value>)
      requires p + length <= buf.Length && p == q && error == NestedError
      modifies this, buf
      ensures buf[..] == old(buf[..])
      ensures match D2iColl(elem, ident, old(buf[p..p + length]))
              case AllOk(ws, used) => ok && vs == ws && p == old(p) + used
              case AllErr(e, at) => !ok && error == e && q == old(p) + at
      decreases elem, 4, 1
    {
      hide D2iAll;
      hide ReadHeader;
      vs := [];
      ok := StartSequence(ident, length);
      if ok {
        ok, vs := Elements(elem);
      }
    }

    /** The element loop behind a header, and Finish. */
    method Elements(elem: Type) returns (ok: bool, vs: seq<Value>)
      requires Valid() && !eos
      modifies this`p, this`q, this`slen, this`eos, this`error, buf
      ensures buf[..] == old(buf[..])
      ensures match D2iAll(elem, old(Budget()), indefinite)
              case AllOk(ws, used) => ok && vs == ws && p == old(p) + used
              case AllErr(e, at) => !ok && error == e && q == old(p) + at
      decreases elem, 4, 0
    {
      hide D2iAll;
      ok, vs := GetUntilEnd(elem);
      if ok {
        ok := Finish();
      }
    }

    /** The macro call that the schema names. */
    method GetField(f: Field, b: Value) returns (ok: bool, b': Value)
      requires Valid()
      modifies this`p, this`q, this`slen, this`error, buf
      ensures buf[..] == old(buf[..])
      ensures After(D2iField(f, b, old(Budget())), old(p), old(q), old(slen), ok, b')
      ensures ok ==> p + slen == old(p + slen) && 0 <= slen <= old(slen)
      decreases f, 0
    {
      hide D2iField;
      match f {
        case Plain(t) => ok, b' := Get(t, b);
        case Opt(t) => ok, b' := GetOpt(t, b);
        case ImpOpt(t, tag) => ok, b' := GetImpOpt(t, tag, b);
        case ExpOpt(t, tag, indef) => ok, b' := GetExpOpt(t, tag, indef, b);
        case Coll(elem, isSet, tagging, opt) => ok, b' := GetColl(elem, isSet, tagging, opt, b);
        case ExpColl(elem, isSet, tag) => ok, b' := GetExpColl(elem, isSet, tag, b);
      }
    }

    /** What a run of get macros that decides `r` does to the cursor. */
    ghost predicate AfterAll(r: FieldsReply, p0: nat, q0: nat, slen0: int, ok: bool, vs: seq<Value>)
      reads this
    {
      match r
      case FieldsOk(values, used, last) =>
        && ok && vs == values && Valid()
        && p == p0 + used && slen == slen0 - used
        && q == (match last case Some(k) => p0 + k case None => q0)
      case FieldsErr(e, at, left) => !ok && vs == left && q == p0 + at && error == e
    }

    /** From `M_ASN1_D2I_start_sequence` to the check in `M_ASN1_D2I_Finish`. */
    method Sequence(fs: Fields, ret: seq<Value>, length: nat) returns (ok: bool, ret': seq<Value>)
      requires p + length <= buf.Length && p == q && error == NestedError && |ret| == Count(fs)
      modifies this, buf
      ensures buf[..] == old(buf[..])
      ensures match D2iRec(fs, Record(ret), old(buf[p..p + length]))
              case Ok(v, used) => ok && v == Record(ret') && p == old(p) + used
              case Err(e, at, left) => !ok && left == Record(ret') && error == e && q == old(p) + at
      decreases fs, 2
    {
      hide D2iBody;
      hide ReadHeader;
      ret' := ret;
      ok := StartSequence(SEQUENCE_IDENT, length);
      if ok {
        ok, ret' := Body(fs, ret);
      }
    }

    method Body(fs: Fields, ret: seq<Value>) returns (ok: bool, ret': seq<Value>)
      requires Valid() && !eos && |ret| == Count(fs)
      requires q <= p
      modifies this`p, this`q, this`slen, this`eos, this`error, buf
      ensures buf[..] == old(buf[..])
      ensures match D2iBody(fs, ret, indefinite, old(p) - old(q), old(Budget()))
              case Ok(v, used) => ok && v == Record(ret') && p == old(q) + used
              case Err(e, at, left) => !ok && left == Record(ret') && error == e && q == old(q) + at
      decreases fs, 1
    {
      hide D2iFields;
      ghost var body := Budget();
      ghost var start := p;
      ok, ret' := GetFields(fs, ret);
      if ok {
        assert Budget() == body[p - start..];
        ok := Finish();
      }
    }

    lemma FirstFails(r: Reply, prior: seq<Value>, p0: nat, q0: nat, slen0: int, b: Value)
      requires r.Err? && |prior| > 0 && After(r, p0, q0, slen0, false, b)
      ensures AfterAll(FieldsErr(r.error, 0, [r.left] + prior[1..]), p0, q0, slen0, false, [b] + prior[1..])
    {
    }

    lemma FirstReads(v: Value, n: nat, tail: FieldsReply, p0: nat, q0: nat, slen0: int, ok: bool, vs: seq<Value>)
      requires AfterAll(tail, p0 + n, if n == 0 then q0 else p0, slen0 - n, ok, vs)
      ensures AfterAll(Following(v, n, tail), p0, q0, slen0, ok, [v] + vs)
    {
    }

    /** The get macros of a field list, in order, storing into the structure's members. */
    method GetFields(fs: Fields, ret: seq<Value>) returns (ok: bool, ret': seq<Value>)
      requires Valid() && |ret| == Count(fs)
      modifies this`p, this`q, this`slen, this`error, buf
      ensures buf[..] == old(buf[..])
      ensures AfterAll(D2iFields(fs, ret, old(Budget())), old(p), old(q), old(slen), ok, ret')
      // what the cursor gained the budget lost
      ensures ok ==> p + slen == old(p + slen) && 0 <= slen <= old(slen)
      decreases fs, 0
    {
      hide D2iField;
      match fs {
        case FNil =>
          ok, ret' := true, [];
        case FCons(f, more) =>
          hide D2iFields;
          hide AfterAll;
          hide Following;
          ghost var s := Budget();
          ghost var r := D2iField(f, ret[0], s);
          FieldsStep(fs, ret, s);
          var v;
          ok, v := GetField(f, ret[0]);
          if !ok {
            FirstFails(r, ret, old(p), old(q), old(slen), v);
            return false, [v] + ret[1..];
          }
          assert Budget() == s[r.used..];
          var vs;
          ok, vs := GetFields(more, ret[1..]);
          FirstReads(v, r.used, D2iFields(more, ret[1..], s[r.used..]), old(p), old(q), old(slen), ok, vs);
          ret' := [v] + vs;
      }
    }
  }

  // ----- d2i functions -----

  /** `func(&b, &p, length)`; a negative length leaves nothing to read. */
  method D2iValue(t: Type, prior: Value, buf: array<byte>, pos: nat, length: int) returns (r: Reply)
    requires pos <= buf.Length && pos + length <= buf.Length
    modifies buf
    ensures buf[..] == old(buf[..])
    ensures r == D2i(t, prior, old(if length < 0 then [] else buf[pos..pos + length]))
    decreases t, 0
  {
    if length < 0 {
      return Err(BadObjectHeader, 0, prior);
    }
    match t {
      case Prim(tag) =>
        r := D2iPrim(tag, prior, buf[pos..pos + length]);
      case Rec(fs, _) =>
        r := D2iNested(fs, prior, buf, pos, length);
      case Loop(elem, _) =>
        var c := D2iCollection(elem, TypeIdent(t), buf, pos, length);
        r := match c
          case AllOk(vs, used) => Ok(Stack(vs), used)
          case AllErr(e, at) => Err(e, at, prior);
    }
  }

  /** The d2i function of a nested structure, called on `&prior` and `&p`. */
  method D2iNested(fs: Fields, prior: Value, buf: array<byte>, pos: nat, length: nat) returns (r: Reply)
    requires pos + length <= buf.Length
    modifies buf
    ensures buf[..] == old(buf[..])
    ensures r == D2iRec(fs, prior, old(buf[pos..pos + length]))
    decreases fs, 4
  {
    hide D2iRec;
    var obj := null;
    if Reusable(fs, prior) {
      obj := new Obj(prior.fields);
    } else {
      NestedPrior(fs, prior, buf[pos..pos + length]);
    }
    var a := new Slot(obj);
    var pp := new InPtr(pos);
    var ret;
    ghost var made;
    ret, r, made := D2iObject(fs, a, pp, buf, length);
    if r.Err? && obj == null {
      r := Err(r.error, r.at, prior);
    }
  }

  /** A value that is not a structure of this type is left alone by a failure. */
  lemma NestedPrior(fs: Fields, prior: Value, s: seq<byte>)
    requires !Reusable(fs, prior)
    ensures var r := D2iRec(fs, Null, s);
            D2iRec(fs, prior, s) == if r.Err? then Err(r.error, r.at, prior) else r
  {
    hide ReadHeader;
    hide D2iBody;
  }

  lemma ExplicitStep(f: Field, prior: Value, s: seq<byte>)
    requires (f.ExpOpt? || f.ExpColl?) && !Skips(f, s)
    ensures D2iField(f, prior, s)
              == match ReadHeader(s)
                 case None => Err(BadObjectHeader, 0, prior)
                 case Some(h) =>
                   Closing(h, s, prior,
                     if f.ExpOpt? then Nested(D2i(f.t, prior, ExpBudget(s, h)))
                     else NestedColl(prior, D2iColl(f.elem, CollIdent(f.isSet, Universal), ExpBudget(s, h))))
  {
    hide D2i;
    hide D2iColl;
    hide ReadHeader;
    hide ExpBudget;
    hide Closing;
  }

  lemma ClosingFails(h: Header, s: seq<byte>, prior: Value, e: Error, left: Value)
    requires h.size <= |s|
    ensures Closing(h, s, prior, Err(e, 0, left)) == Err(e, 0, left)
  {
  }

  /** The reply of a loop that has `vs` after `n` octets and gets `r` from there on. */
  ghost function Resumed(vs: seq<Value>, n: nat, r: ListReply): ListReply {
    match r
    case AllOk(ws, m) => AllOk(vs + ws, n + m)
    case AllErr(e, at) => AllErr(e, n + at)
  }

  lemma Starts(r: ListReply)
    ensures Resumed([], 0, r) == r
  {
  }

  lemma ReadNone(elem: Type, s: seq<byte>, indefinite: bool, vs: seq<Value>, n: nat)
    requires EndSequence(s, indefinite)
    ensures Resumed(vs, n, D2iAll(elem, s, indefinite)) == AllOk(vs, n + if indefinite then 2 else 0)
    ensures !indefinite ==> s == []
  {
    assert vs + [] == vs;
  }

  lemma ReadOne(elem: Type, s: seq<byte>, indefinite: bool, vs: seq<Value>, n: nat)
    requires !EndSequence(s, indefinite)
    ensures var r := D2i(elem, Null, s);
            Resumed(vs, n, D2iAll(elem, s, indefinite))
              == if r.Err? then AllErr(NestedError, n)
                 else Resumed(vs + [r.value], n + r.used, D2iAll(elem, s[r.used..], indefinite))
  {
    hide D2i;
  }

  /** A header, the element loop, then Finish. */
  method D2iCollection(elem: Type, ident: byte, buf: array<byte>, pos: nat, length: int) returns (r: ListReply)
    requires pos <= buf.Length && pos + length <= buf.Length
    modifies buf
    ensures buf[..] == old(buf[..])
    ensures r == D2iColl(elem, ident, old(if length < 0 then [] else buf[pos..pos + length]))
    decreases elem, 4, 2
  {
    EmptyColl(elem, ident);
    hide D2iColl;
    if length < 0 {
      return AllErr(BadObjectHeader, 0);
    }
    var c := new DecodeCtx(buf, pos, length);
    var ok, vs := c.Collection(elem, ident, length);
    r := if ok then AllOk(vs, c.p - pos) else AllErr(c.error, c.q - pos);
  }

  lemma EmptyColl(elem: Type, ident: byte)
    ensures D2iColl(elem, ident, []) == AllErr(BadObjectHeader, 0)
  {
  }

  /** The value behind `type **a`: NULL when there is no object yet. */
  ghost function Supplied(a: Slot?): Value
    reads a, if a != null then a.obj else null
  {
    if a == null || a.obj == null then Null else Record(a.obj.fields)
  }

  /** A whole d2i function, from `M_ASN1_D2I_vars` to `M_ASN1_D2I_Finish`. `r` records what
      `asn1_add_error` was told; `made` is the object `func()` allocated, if it was called. */
  method D2iObject(fs: Fields, a: Slot?, pp: InPtr, buf: array<byte>, length: nat)
    returns (ret: Obj?, r: Reply, ghost made: Obj?)
    requires pp.pos + length <= buf.Length
    // a supplied object is one of this structure, as its C type says
    requires Supplied(a).Record? ==> Reusable(fs, Supplied(a))
    modifies buf, pp, a, if a != null then a.obj else null
    // the input octets are as they were, whatever happened
    ensures buf[..] == old(buf[..])
    ensures r == D2iRec(fs, old(Supplied(a)), old(buf[pp.pos..pp.pos + length]))
    // success: cursor at the end, *a set, result in the returned object
    ensures r.Ok? ==> ret != null && Record(ret.fields) == r.value && pp.pos == old(pp.pos) + r.used
    ensures r.Ok? && a != null ==> a.obj == ret
    // failure: *pp and *a as they were
    ensures r.Err? ==> ret == null && pp.pos == old(pp.pos)
    ensures r.Err? && a != null ==> a.obj == old(a.obj)
    // a fresh object is returned, or freed exactly once
    ensures old(Supplied(a)).Null? <==> made != null
    ensures made != null ==> fresh(made) && made.frees == (if r.Ok? then 0 else 1)
    ensures made != null && r.Ok? ==> ret == made
    // a supplied object is never freed; on failure it holds what had been stored so far
    ensures made == null ==> old(a.obj).frees == old(a.obj.frees)
    ensures made == null && r.Ok? ==> ret == old(a.obj)
    ensures made == null && r.Err? ==> Record(old(a.obj).fields) == r.left
    decreases fs, 3
  {
    hide D2iRec;
    var c := new DecodeCtx(buf, pp.pos, length);
    var obj: Obj;
    if a == null || a.obj == null {
      obj := new Obj(NewFields(fs));
      made := obj;
    } else {
      obj := a.obj;
      made := null;
    }
    FreshPrior(fs, buf[pp.pos..pp.pos + length]);
    var ok, fields := c.Sequence(fs, obj.fields, length);
    obj.fields := fields;
    if ok {
      r := Ok(Record(fields), c.p - pp.pos);
      pp.pos := c.p;
      if a != null {
        a.obj := obj;
      }
      return obj, r, made;
    }
    r := Err(c.error, c.q - pp.pos, if a == null || a.obj == null then Null else Record(fields));
    if a == null || a.obj != obj {
      obj.Free();
    }
    ret := null;
  }

  /** Decoding into no object differs from decoding into a new one only in what a failure leaves. */
  lemma FreshPrior(fs: Fields, s: seq<byte>)
    ensures match D2iRec(fs, Record(NewFields(fs)), s)
            case Ok(v, used) => D2iRec(fs, Null, s) == Ok(v, used)
            case Err(e, at, _) => D2iRec(fs, Null, s) == Err(e, at, Null)
  {
  }
}
