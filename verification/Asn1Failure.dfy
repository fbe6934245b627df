/**
 What a failed decode reports, and what it leaves in the object it decoded into.
 */
module Asn1Failure {
  import opened Wrappers
  import opened X690
  import opened Asn1Schema
  import opened Asn1Decoding

  function Take(fs: Fields, k: nat): (r: Fields)
    requires k <= Count(fs)
    ensures Count(r) == k
  {
    if k == 0 then FNil else FCons(fs.head, Take(fs.tail, k - 1))
  }

  function Nth(fs: Fields, k: nat): Field
    requires k < Count(fs)
  {
    if k == 0 then fs.head else Nth(fs.tail, k - 1)
  }

  /** The fields before field `k` were read, up to octet `at`. */
  ghost predicate Arrives(fs: Fields, prior: seq<Value>, s: seq<byte>, k: nat, at: int)
    requires |prior| == Count(fs) && k < Count(fs)
  {
    var before := D2iFields(Take(fs, k), prior[..k], s);
    0 <= at <= |s| && before.FieldsOk? && before.used == at
  }

  lemma ArrivesFirst(fs: Fields, prior: seq<Value>, s: seq<byte>)
    requires |prior| == Count(fs) && fs.FCons?
    ensures Arrives(fs, prior, s, 0, 0) && s[0..] == s
  {
  }

  lemma TakeStep(fs: Fields, prior: seq<Value>, s: seq<byte>, k: nat)
    requires |prior| == Count(fs) && 0 < k <= Count(fs) && D2iField(fs.head, prior[0], s).Ok?
    ensures var head := D2iField(fs.head, prior[0], s);
            D2iFields(Take(fs, k), prior[..k], s)
              == Following(head.value, head.used,
                           D2iFields(Take(fs.tail, k - 1), prior[1..][..k - 1], s[head.used..]))
  {
    hide D2iField;
    assert prior[..k][1..] == prior[1..][..k - 1] && prior[..k][0] == prior[0];
  }

  lemma ArrivesLater(fs: Fields, prior: seq<Value>, s: seq<byte>, k: nat, at: int)
    requires |prior| == Count(fs) && k + 1 < Count(fs) && D2iField(fs.head, prior[0], s).Ok?
    ensures var n := D2iField(fs.head, prior[0], s).used;
            && (Arrives(fs, prior, s, k + 1, n + at) <==> Arrives(fs.tail, prior[1..], s[n..], k, at))
            && (0 <= at <= |s| - n ==> s[n..][at..] == s[n + at..])
  {
    hide D2iField;
    hide D2iFields;
    hide Take;
    TakeStep(fs, prior, s, k + 1);
    SliceFrom(s, D2iField(fs.head, prior[0], s).used, at);
  }

  lemma SliceFrom(s: seq<byte>, n: nat, at: int)
    requires n <= |s|
    ensures 0 <= at <= |s| - n ==> s[n..][at..] == s[n + at..]
  {
  }

  // ----- the field list -----

  /** Field `k` is the first that cannot be read: the fields before it were read up to the
      reported octet and what they stored stays stored, with what the failing field left
      behind in its own member; the members behind it are as they were. */
  ghost predicate FailsAt(fs: Fields, prior: seq<Value>, s: seq<byte>, k: nat)
    requires |prior| == Count(fs) && k < Count(fs) && D2iFields(fs, prior, s).FieldsErr?
  {
    var r := D2iFields(fs, prior, s);
    && Arrives(fs, prior, s, k, r.at)
    && r.left[..k] == D2iFields(Take(fs, k), prior[..k], s).values
    && var failed := D2iField(Nth(fs, k), prior[k], s[r.at..]);
    && failed.Err? && failed.error == r.error && r.left[k] == failed.left
    && r.left[k + 1..] == prior[k + 1..]
  }

  /** A failure in a field list is reported at the start of the first field that cannot be read. */
  lemma {:induction false} FailurePoint(fs: Fields, prior: seq<Value>, s: seq<byte>) returns (k: nat)
    requires |prior| == Count(fs) && D2iFields(fs, prior, s).FieldsErr?
    ensures k < Count(fs) && FailsAt(fs, prior, s, k)
    decreases fs
  {
    hide FailsAt;
    hide D2iField;
    var head := D2iField(fs.head, prior[0], s);
    if head.Err? {
      k := 0;
      FailsFirst(fs, prior, s);
    } else {
      var m := FailurePoint(fs.tail, prior[1..], s[head.used..]);
      k := m + 1;
      FailsLater(fs, prior, s, m);
    }
  }

  lemma FailsFirst(fs: Fields, prior: seq<Value>, s: seq<byte>)
    requires |prior| == Count(fs) && fs.FCons? && D2iField(fs.head, prior[0], s).Err?
    ensures D2iFields(fs, prior, s).FieldsErr? && FailsAt(fs, prior, s, 0)
  {
    hide D2iField;
    ArrivesFirst(fs, prior, s);
  }

  lemma FailsLater(fs: Fields, prior: seq<Value>, s: seq<byte>, m: nat)
    requires |prior| == Count(fs) && m + 1 < Count(fs)
    requires var head := D2iField(fs.head, prior[0], s);
             && head.Ok?
             && D2iFields(fs.tail, prior[1..], s[head.used..]).FieldsErr?
             && FailsAt(fs.tail, prior[1..], s[head.used..], m)
    ensures D2iFields(fs, prior, s).FieldsErr? && FailsAt(fs, prior, s, m + 1)
  {
    hide D2iField;
    hide D2iFields;
    hide Arrives;
    hide Take;
    var head := D2iField(fs.head, prior[0], s);
    var tail := D2iFields(fs.tail, prior[1..], s[head.used..]);
    ErrLater(fs, prior, s);
    TakeStep(fs, prior, s, m + 1);
    ArrivesLater(fs, prior, s, m, tail.at);
    TailArrives(fs.tail, prior[1..], s[head.used..], m, tail.at);
    assert Nth(fs, m + 1) == Nth(fs.tail, m);
    LeftLater(head.value, tail.left, prior, m);
  }

  lemma ErrLater(fs: Fields, prior: seq<Value>, s: seq<byte>)
    requires |prior| == Count(fs) && fs.FCons? && D2iField(fs.head, prior[0], s).Ok?
    requires D2iFields(fs.tail, prior[1..], s[D2iField(fs.head, prior[0], s).used..]).FieldsErr?
    ensures var head := D2iField(fs.head, prior[0], s);
            var tail := D2iFields(fs.tail, prior[1..], s[head.used..]);
            D2iFields(fs, prior, s) == FieldsErr(tail.error, head.used + tail.at, [head.value] + tail.left)
  {
    hide D2iField;
  }

  lemma TailArrives(fs: Fields, prior: seq<Value>, s: seq<byte>, k: nat, at: int)
    requires |prior| == Count(fs) && k < Count(fs) && Arrives(fs, prior, s, k, at)
    ensures 0 <= at <= |s| && D2iFields(Take(fs, k), prior[..k], s).FieldsOk?
  {
    hide D2iFields;
    hide Take;
  }

  lemma LeftLater(v: Value, left: seq<Value>, prior: seq<Value>, m: nat)
    requires m + 1 < |prior| && |left| + 1 == |prior| && left[m + 1..] == prior[1..][m + 1..]
    ensures var all := [v] + left;
            all[..m + 1] == [v] + left[..m] && all[m + 1] == left[m] && all[m + 2..] == prior[m + 2..]
  {
    var all := [v] + left;
    assert all[m + 2..] == left[m + 1..];
    assert prior[1..][m + 1..] == prior[m + 2..];
  }

  // ----- the reported octet -----

  /** Some field starts at octet `at` and cannot be read. */
  ghost predicate Unreadable(fs: Fields, prior: seq<Value>, s: seq<byte>, at: int)
    requires |prior| == Count(fs)
  {
    exists k: nat | k < Count(fs) ::
      Arrives(fs, prior, s, k, at) && D2iField(Nth(fs, k), prior[k], s[at..]).Err?
  }

  /** Some field starts at octet `at` and is read up to octet `end`. */
  ghost predicate Read(fs: Fields, prior: seq<Value>, s: seq<byte>, at: int, end: nat)
    requires |prior| == Count(fs)
  {
    exists k: nat | k < Count(fs) ::
      && Arrives(fs, prior, s, k, at)
      && var r := D2iField(Nth(fs, k), prior[k], s[at..]);
      && r.Ok? && r.used > 0 && at + r.used == end
  }

  lemma {:induction false} AllReadable(fs: Fields, prior: seq<Value>, s: seq<byte>, k: nat, at: int)
    requires |prior| == Count(fs) && k < Count(fs) && D2iFields(fs, prior, s).FieldsOk?
    requires Arrives(fs, prior, s, k, at)
    ensures D2iField(Nth(fs, k), prior[k], s[at..]).Ok?
    decreases fs
  {
    hide D2iField;
    hide Arrives;
    var n := D2iField(fs.head, prior[0], s).used;
    if k == 0 {
      AtFirst(fs, prior, s, at);
    } else {
      ArrivesLater(fs, prior, s, k - 1, at - n);
      AtLater(fs, prior, s, k, at);
      AllReadable(fs.tail, prior[1..], s[n..], k - 1, at - n);
    }
  }

  lemma AtFirst(fs: Fields, prior: seq<Value>, s: seq<byte>, at: int)
    requires |prior| == Count(fs) && fs.FCons? && Arrives(fs, prior, s, 0, at)
    ensures at == 0 && s[at..] == s
  {
  }

  lemma AtLater(fs: Fields, prior: seq<Value>, s: seq<byte>, k: nat, at: int)
    requires |prior| == Count(fs) && 0 < k < Count(fs) && Arrives(fs, prior, s, k, at)
    requires D2iField(fs.head, prior[0], s).Ok?
    ensures D2iField(fs.head, prior[0], s).used <= at <= |s|
  {
    hide D2iField;
    TakeStep(fs, prior, s, k);
  }

  lemma {:induction false} LastRead(fs: Fields, prior: seq<Value>, s: seq<byte>)
    requires |prior| == Count(fs) && D2iFields(fs, prior, s).FieldsOk?
    ensures var r := D2iFields(fs, prior, s);
            if r.used == 0 then r.last.None?
            else r.last.Some? && Read(fs, prior, s, r.last.value, r.used)
    decreases fs
  {
    hide D2iField;
    hide Read;
    if fs.FCons? {
      var head := D2iField(fs.head, prior[0], s);
      var tail := D2iFields(fs.tail, prior[1..], s[head.used..]);
      LastRead(fs.tail, prior[1..], s[head.used..]);
      if tail.used > 0 {
        ReadLater(fs, prior, s, tail.last.value, tail.used);
      } else if head.used > 0 {
        ReadFirst(fs, prior, s);
      }
    }
  }

  lemma ReadFirst(fs: Fields, prior: seq<Value>, s: seq<byte>)
    requires |prior| == Count(fs) && fs.FCons?
    requires D2iField(fs.head, prior[0], s).Ok? && D2iField(fs.head, prior[0], s).used > 0
    ensures Read(fs, prior, s, 0, D2iField(fs.head, prior[0], s).used)
  {
    hide D2iField;
    ArrivesFirst(fs, prior, s);
    hide Arrives;
    assert Nth(fs, 0) == fs.head;
  }

  lemma ReadLater(fs: Fields, prior: seq<Value>, s: seq<byte>, at: int, end: nat)
    requires |prior| == Count(fs) && fs.FCons? && D2iField(fs.head, prior[0], s).Ok?
    requires Read(fs.tail, prior[1..], s[D2iField(fs.head, prior[0], s).used..], at, end)
    ensures var n := D2iField(fs.head, prior[0], s).used;
            Read(fs, prior, s, n + at, n + end)
  {
    hide D2iField;
    hide D2iFields;
    hide Take;
    var n := D2iField(fs.head, prior[0], s).used;
    var k: nat :| k < Count(fs.tail) && Arrives(fs.tail, prior[1..], s[n..], k, at)
      && var r := D2iField(Nth(fs.tail, k), prior[1..][k], s[n..][at..]);
         r.Ok? && r.used > 0 && at + r.used == end;
    TailArrives(fs.tail, prior[1..], s[n..], k, at);
    ArrivesLater(fs, prior, s, k, at);
    hide Arrives;
    assert Nth(fs, k + 1) == Nth(fs.tail, k) && prior[k + 1] == prior[1..][k];
  }

  /** What `asn1_add_error` is told. Before a good header it is the start of the input. Behind
      one it is the start of a field that cannot be read exactly when the field list fails;
      when `Finish` fails it is the start of the last field that was read, which is not at
      fault, or the start of the input when no field was there. */
  lemma ReportedOffset(fs: Fields, prior: Value, s: seq<byte>)
    requires D2iRec(fs, prior, s).Err?
    ensures var r := D2iRec(fs, prior, s);
            if ReadHeader(s).None? then r.error == BadObjectHeader && r.at == 0
            else if s[0] != SEQUENCE_IDENT then r.error == WrongTag && r.at == 0
            else
              var h := ReadHeader(s).value;
              var start, body := StartFields(fs, prior), Contents(s, h);
              var list := D2iFields(fs, start, body);
              && (list.FieldsErr? <==> Unreadable(fs, start, body, r.at - h.size))
              && (list.FieldsErr? ==> r.error == list.error && r.at == h.size + list.at)
              && (list.FieldsOk? ==> r.error == if h.indefinite then MissingEos else LengthMismatch)
              && (list.FieldsOk? ==> if list.used == 0 then r.at == 0
                                     else Read(fs, start, body, r.at - h.size, list.used))
  {
    hide ReadHeader;
    hide StartFields;
    hide Unreadable;
    hide Read;
    hide D2iFields;
    if ReadHeader(s).Some? {
      var h := ReadHeader(s).value;
      var start, body := StartFields(fs, prior), Contents(s, h);
      if D2iFields(fs, start, body).FieldsErr? {
        FailureIsUnreadable(fs, start, body);
      } else {
        LastRead(fs, start, body);
        SuccessIsReadable(fs, start, body, D2iRec(fs, prior, s).at - h.size);
      }
    }
  }

  lemma FailureIsUnreadable(fs: Fields, prior: seq<Value>, s: seq<byte>)
    requires |prior| == Count(fs) && D2iFields(fs, prior, s).FieldsErr?
    ensures Unreadable(fs, prior, s, D2iFields(fs, prior, s).at)
  {
    hide D2iField;
    hide D2iFields;
    hide Arrives;
    var k := FailurePoint(fs, prior, s);
  }

  lemma SuccessIsReadable(fs: Fields, prior: seq<Value>, s: seq<byte>, at: int)
    requires |prior| == Count(fs) && D2iFields(fs, prior, s).FieldsOk?
    ensures !Unreadable(fs, prior, s, at)
  {
    hide D2iField;
    hide D2iFields;
    hide Arrives;
    forall k: nat | k < Count(fs) && Arrives(fs, prior, s, k, at)
      ensures 0 <= at <= |s| && D2iField(Nth(fs, k), prior[k], s[at..]).Ok?
    {
      InRange(fs, prior, s, k, at);
      AllReadable(fs, prior, s, k, at);
    }
  }

  lemma InRange(fs: Fields, prior: seq<Value>, s: seq<byte>, k: nat, at: int)
    requires |prior| == Count(fs) && k < Count(fs) && Arrives(fs, prior, s, k, at)
    ensures 0 <= at <= |s|
  {
  }

  // ----- two inputs -----

  lemma OneOctetField(tag: PrimTag, x: byte, prior: Value, rest: seq<byte>)
    ensures D2iField(Plain(Prim(tag)), prior, [tag, 1, x] + rest) == Ok(Octets([x]), 3)
  {
    var s := [tag, 1, x] + rest;
    assert ReadHeader(s) == Some(Header(false, 2, 1));
    assert s[2..3] == [x];
  }

  lemma FirstOfTwo(prior: Value)
    ensures var s := [0x30, 6, 4, 1, 7, 4, 1, 9];
            && ReadHeader(s) == Some(Header(false, 2, 6))
            && s[2..8] == [4, 1, 7, 4, 1, 9]
            && D2iField(Plain(Prim(4)), prior, s[2..8]) == Ok(Octets([7]), 3)
  {
    OneOctetField(4, 7, prior, [4, 1, 9]);
    hide D2iField;
    assert [4, 1, 7] + [4, 1, 9] == [0x30, 6, 4, 1, 7, 4, 1, 9][2..8];
  }

  /** The reported octet need not be at fault: behind a structure of one field there is another
      value, and the report names the field that was read. */
  lemma ReportsGoodField()
    ensures var fs := FCons(Plain(Prim(4)), FNil);
            var s := [0x30, 6, 4, 1, 7, 4, 1, 9];
            && D2i(Rec(fs, false), Null, s) == Err(LengthMismatch, 2, Null)
            && D2iField(Plain(Prim(4)), Octets([]), s[2..8]) == Ok(Octets([7]), 3)
  {
    hide D2i;
    hide D2iField;
    FirstOfTwo(Octets([]));
    OneField(FCons(Plain(Prim(4)), FNil), [0x30, 6, 4, 1, 7, 4, 1, 9]);
  }

  lemma OneField(fs: Fields, s: seq<byte>)
    requires fs == FCons(Plain(Prim(4)), FNil) && s == [0x30, 6, 4, 1, 7, 4, 1, 9]
    ensures D2i(Rec(fs, false), Null, s) == Err(LengthMismatch, 2, Null)
  {
    FirstOfTwo(Octets([]));
    hide ReadHeader;
    hide D2iField;
    assert NewFields(fs) == [Octets([])];
    RecStep(fs, Null, s);
    FieldsStep(fs, [Octets([])], s[2..8]);
    assert D2iFields(FNil, [], s[2..8][3..]) == FieldsOk([], 0, None);
    hide D2iFields;
  }

  /** A failed decode can change the object: with a second field of another type the first
      value is stored and then the decode fails. */
  lemma StoresThenFails()
    ensures var fs := FCons(Plain(Prim(4)), FCons(Plain(Prim(5)), FNil));
            var s := [0x30, 6, 4, 1, 7, 4, 1, 9];
            D2i(Rec(fs, false), Record([Octets([1]), Octets([2])]), s)
              == Err(NestedError, 5, Record([Octets([7]), Octets([2])]))
  {
    hide D2i;
    TwoMembers(FCons(Plain(Prim(4)), FCons(Plain(Prim(5)), FNil)), [0x30, 6, 4, 1, 7, 4, 1, 9],
               [Octets([1]), Octets([2])]);
  }

  lemma TwoMembers(fs: Fields, s: seq<byte>, prior: seq<Value>)
    requires fs == FCons(Plain(Prim(4)), FCons(Plain(Prim(5)), FNil)) && s == [0x30, 6, 4, 1, 7, 4, 1, 9]
    requires prior == [Octets([1]), Octets([2])]
    ensures D2i(Rec(fs, false), Record(prior), s) == Err(NestedError, 5, Record([Octets([7]), Octets([2])]))
  {
    FirstOfTwo(prior[0]);
    SecondFails(fs.tail, s[2..8][3..], prior[1]);
    hide ReadHeader;
    hide D2iField;
    RecStep(fs, Record(prior), s);
    FieldsStep(fs, prior, s[2..8]);
    hide D2iFields;
    assert prior[1..] == [prior[1]];
    assert [Octets([7])] + [prior[1]] == [Octets([7]), Octets([2])];
  }

  lemma SecondFails(fs: Fields, s: seq<byte>, prior: Value)
    requires fs == FCons(Plain(Prim(5)), FNil) && s == [4, 1, 9]
    ensures D2iFields(fs, [prior], s) == FieldsErr(NestedError, 0, [prior])
  {
    assert ReadHeader(s) == Some(Header(false, 2, 1));
    assert D2iField(Plain(Prim(5)), prior, s) == Err(NestedError, 0, prior);
  }
}
