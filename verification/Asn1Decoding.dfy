/**
 What the D2I macros compute from the octets in their budget. `s` is always the `c.slen`
 octets at `c.p`; `used` is how far `c.p` moves. The decoder of module Asn1Decoder is
 proved to compute exactly these replies.
 */
module Asn1Decoding {
  import opened Wrappers
  import opened X690
  import opened Asn1Schema

  datatype Error =
    | NestedError           // ERR_R_NESTED_ASN1_ERROR, the initial c.error
    | BadObjectHeader       // ERR_R_BAD_ASN1_OBJECT_HEADER
    | WrongTag
    | MissingEos            // ERR_R_MISSING_ASN1_EOS
    | LengthMismatch

  /** `at` is `c.q - *pp` when control reaches `err`; `left` is the value the destination
      holds afterwards, which a failed decode into an existing object may have overwritten. */
  datatype Reply =
    | Ok(value: Value, used: nat)
    | Err(error: Error, at: nat, left: Value)

  datatype ListReply =
    | AllOk(values: seq<Value>, used: nat)
    | AllErr(error: Error, at: nat)

  /** `last` is the start of the last field that was read, the final `c.q`. */
  datatype FieldsReply =
    | FieldsOk(values: seq<Value>, used: nat, last: Option<nat>)
    | FieldsErr(error: Error, at: nat, left: seq<Value>)

  // ----- X_new -----

  /** The object that `func()` allocates: mandatory parts present and empty, optional ones NULL. */
  function New(t: Type): Value {
    match t
    case Prim(_) => Octets([])
    case Rec(fs, _) => Record(NewFields(fs))
    case Loop(_, _) => Stack([])
  }

  function NewField(f: Field): Value {
    match f
    case Plain(t) => New(t)
    case Coll(_, _, _, opt) => if opt then Null else Stack([])
    case _ => Null
  }

  function NewFields(fs: Fields): (r: seq<Value>)
    ensures |r| == Count(fs)
  {
    match fs
    case FNil => []
    case FCons(f, rest) => [NewField(f)] + NewFields(rest)
  }

  /** `M_ASN1_D2I_vars`: reuse `*a` when there is one, otherwise allocate. */
  function StartFields(fs: Fields, prior: Value): (r: seq<Value>)
    ensures |r| == Count(fs)
  {
    if Reusable(fs, prior) then prior.fields else NewFields(fs)
  }

  predicate Reusable(fs: Fields, prior: Value) {
    prior.Record? && |prior.fields| == Count(fs)
  }

  // ----- d2i functions -----

  /** The contents budget behind a header: `c.slen` after `asn1_GetSequence`. */
  function Contents(s: seq<byte>, h: Header): seq<byte>
    requires 2 <= h.size <= h.size + h.length <= |s|
  {
    if h.indefinite then s[h.size..] else s[h.size..h.size + h.length]
  }

  function D2i(t: Type, prior: Value, s: seq<byte>): (r: Reply)
    ensures r.Ok? ==> 2 <= r.used <= |s| && r.value != Null
    decreases t, 0
  {
    match t
    case Prim(tag) => D2iPrim(tag, prior, s)
    case Rec(fs, _) => D2iRec(fs, prior, s)
    case Loop(elem, _) =>
      match D2iColl(elem, TypeIdent(t), s)
      case AllOk(vs, used) => Ok(Stack(vs), used)
      case AllErr(e, at) => Err(e, at, prior)
  }

  function D2iPrim(tag: PrimTag, prior: Value, s: seq<byte>): (r: Reply)
    ensures r.Ok? ==> 2 <= r.used <= |s|
  {
    match ReadHeader(s)
    case None => Err(BadObjectHeader, 0, prior)
    case Some(h) =>
      if s[0] != tag then Err(WrongTag, 0, prior)
      else Ok(Octets(s[h.size..h.size + h.length]), h.size + h.length)
  }

  function D2iRec(fs: Fields, prior: Value, s: seq<byte>): (r: Reply)
    ensures r.Ok? ==> 2 <= r.used <= |s| && r.value.Record?
    decreases fs, 3
  {
    match ReadHeader(s)
    case None => Err(BadObjectHeader, 0, prior)
    case Some(h) =>
      if s[0] != SEQUENCE_IDENT then Err(WrongTag, 0, prior)
      else
        var r := D2iBody(fs, StartFields(fs, prior), h.indefinite, h.size, Contents(s, h));
        if r.Err? && !Reusable(fs, prior) then Err(r.error, r.at, prior) else r
  }

  /** The field list and Finish, storing into the members `start`. */
  function D2iBody(fs: Fields, start: seq<Value>, indefinite: bool, size: nat, body: seq<byte>): (r: Reply)
    requires |start| == Count(fs)
    ensures r.Ok? ==> size <= r.used <= size + |body| && r.value.Record?
    decreases fs, 2
  {
    match D2iFields(fs, start, body)
    case FieldsErr(e, at, left) => Err(e, size + at, Record(left))
    case FieldsOk(vs, used, last) => Finish(indefinite, size, body, vs, used, last)
  }

  /** `M_ASN1_D2I_Finish`: an indefinite sequence must close with the two zero octets,
      a definite one must be used up. */
  function Finish(indefinite: bool, size: nat, body: seq<byte>, vs: seq<Value>, used: nat, last: Option<nat>): Reply
    requires used <= |body|
  {
    var q := match last case None => 0 case Some(k) => size + k;
    if indefinite then
      if AtEoc(body[used..]) then Ok(Record(vs), size + used + 2) else Err(MissingEos, q, Record(vs))
    else
      if used == |body| then Ok(Record(vs), size + used) else Err(LengthMismatch, q, Record(vs))
  }

  function D2iFields(fs: Fields, prior: seq<Value>, s: seq<byte>): (r: FieldsReply)
    requires |prior| == Count(fs)
    ensures r.FieldsOk? ==> r.used <= |s| && |r.values| == Count(fs)
    ensures r.FieldsErr? ==> |r.left| == Count(fs)
    decreases fs, 1
  {
    match fs
    case FNil => FieldsOk([], 0, None)
    case FCons(f, rest) =>
      match D2iField(f, prior[0], s)
      case Err(e, _, left) => FieldsErr(e, 0, [left] + prior[1..])
      case Ok(v, used) => Following(v, used, D2iFields(rest, prior[1..], s[used..]))
  }

  /** The reply of a field list whose first field gave `v` after `used` octets (0: it was skipped). */
  function Following(v: Value, used: nat, tail: FieldsReply): FieldsReply {
    match tail
    case FieldsErr(e, at, left) => FieldsErr(e, used + at, [v] + left)
    case FieldsOk(vs, n, last) =>
      var last' := match last
        case Some(k) => Some(used + k)
        case None => if used == 0 then None else Some(0);
      FieldsOk([v] + vs, used + n, last')
  }

  /** One get macro. A nested failure leaves `c.error` at its initial value. */
  function D2iField(f: Field, prior: Value, s: seq<byte>): (r: Reply)
    ensures r.Ok? ==> r.used <= |s|
    ensures r.Ok? ==> (r.used == 0 <==> Skips(f, s))
    decreases f, 3
  {
    if Skips(f, s) then Ok(prior, 0)
    else match f
      case Plain(t) => Nested(D2i(t, prior, s))
      case Opt(t) => Nested(D2i(t, prior, s))
      case ImpOpt(t, _) => Nested(D2i(t, prior, Rewritten(t, s)))
      case ExpOpt(t, _, _) =>
        (match ReadHeader(s)
        case None => Err(BadObjectHeader, 0, prior)
        case Some(h) => Closing(h, s, prior, Nested(D2i(t, prior, ExpBudget(s, h)))))
      case Coll(elem, isSet, tagging, _) => NestedColl(prior, D2iColl(elem, CollIdent(isSet, tagging), s))
      case ExpColl(elem, isSet, _) =>
        match ReadHeader(s)
        case None => Err(BadObjectHeader, 0, prior)
        case Some(h) =>
          Closing(h, s, prior, NestedColl(prior, D2iColl(elem, CollIdent(isSet, Universal), ExpBudget(s, h))))
  }

  predicate Skips(f: Field, s: seq<byte>) {
    MayOmit(f) && (s == [] || !Guard(f, s[0]))
  }

  function Nested(r: Reply): Reply {
    if r.Err? then Err(NestedError, 0, r.left) else r
  }

  function NestedColl(prior: Value, r: ListReply): Reply {
    match r
    case AllOk(vs, used) => Ok(Stack(vs), used)
    case AllErr(_, _) => Err(NestedError, 0, prior)
  }

  /** `M_ASN1_next = (_tmp & V_ASN1_CONSTRUCTED)|type` */
  function Rewritten(t: Type, s: seq<byte>): seq<byte>
    requires s != []
  {
    s[0 := ConstructedBit(s[0]) + TypeTag(t)]
  }

  /** `Tlen` in get_EXP_opt: the declared length, or all but the two closing octets. The
      macro subtracts without a test, so the second form can be negative. */
  function Tlen(s: seq<byte>, h: Header): int {
    if h.indefinite then |s| - h.size - 2 else h.length
  }

  /** What `func(&b, &p, len)` may read when `p` is at `from`: for a negative `len`, nothing. */
  function Window(s: seq<byte>, from: nat, len: int): (r: seq<byte>)
    requires from <= |s| && from + len <= |s|
    ensures from + |r| <= |s|
  {
    if len < 0 then [] else s[from..from + len]
  }

  function ExpBudget(s: seq<byte>, h: Header): (r: seq<byte>)
    requires ReadHeader(s) == Some(h)
    ensures h.size + |r| <= |s|
  {
    Window(s, h.size, Tlen(s, h))
  }

  /** The tail of get_EXP_opt. In the definite form nothing compares what `func` used with
      the declared length. */
  function Closing(h: Header, s: seq<byte>, prior: Value, inner: Reply): (r: Reply)
    requires inner.Ok? ==> h.size + inner.used <= |s|
    requires h.size <= |s|
    ensures r.Ok? ==> h.size <= r.used <= |s|
  {
    match inner
    case Err(_, _, _) => inner
    case Ok(v, used) =>
      if !h.indefinite then Ok(v, h.size + used)
      else if AtEoc(s[h.size + used..]) then Ok(v, h.size + used + 2)
      else Err(MissingEos, 0, v)
  }

  /** A header and then elements until `M_ASN1_D2I_end_sequence`. */
  function D2iColl(elem: Type, ident: byte, s: seq<byte>): (r: ListReply)
    ensures r.AllOk? ==> 2 <= r.used <= |s|
    decreases elem, 2
  {
    match ReadHeader(s)
    case None => AllErr(BadObjectHeader, 0)
    case Some(h) =>
      if s[0] != ident then AllErr(WrongTag, 0)
      else match D2iAll(elem, Contents(s, h), h.indefinite)
        case AllErr(e, at) => AllErr(e, h.size + at)
        case AllOk(vs, used) => AllOk(vs, h.size + used)
  }

  function D2iAll(elem: Type, s: seq<byte>, indefinite: bool): (r: ListReply)
    ensures r.AllOk? ==> r.used <= |s|
    ensures r.AllOk? && !indefinite ==> r.used == |s|
    decreases elem, 1, |s|
  {
    if EndSequence(s, indefinite) then AllOk([], if indefinite then 2 else 0)
    else match D2i(elem, Null, s)
      case Err(_, _, _) => AllErr(NestedError, 0)
      case Ok(v, used) =>
        match D2iAll(elem, s[used..], indefinite)
        case AllErr(e, at) => AllErr(e, used + at)
        case AllOk(vs, n) => AllOk([v] + vs, used + n)
  }

  /** `M_ASN1_D2I_end_sequence` */
  predicate EndSequence(s: seq<byte>, indefinite: bool) {
    if indefinite then AtEoc(s) else s == []
  }

  // ----- one step -----

  lemma RecStep(fs: Fields, prior: Value, s: seq<byte>)
    requires ReadHeader(s).Some? && s[0] == SEQUENCE_IDENT
    ensures var h := ReadHeader(s).value;
            var r := D2iBody(fs, StartFields(fs, prior), h.indefinite, h.size, Contents(s, h));
            D2iRec(fs, prior, s) == if r.Err? && !Reusable(fs, prior) then Err(r.error, r.at, prior) else r
  {
    hide ReadHeader;
    hide StartFields;
    hide D2iBody;
  }

  lemma FieldsStep(fs: Fields, prior: seq<Value>, s: seq<byte>)
    requires |prior| == Count(fs) && fs.FCons?
    ensures var r := D2iField(fs.head, prior[0], s);
            D2iFields(fs, prior, s)
              == if r.Err? then FieldsErr(r.error, 0, [r.left] + prior[1..])
                 else Following(r.value, r.used, D2iFields(fs.tail, prior[1..], s[r.used..]))
  {
    hide D2iField;
    hide Following;
  }
}
