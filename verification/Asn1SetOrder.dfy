/**
 A SET OF is written in ascending order of encodings (X.690 section 11.6), so the order of
 its elements is not part of its value.
 */
module Asn1SetOrder {
  import opened Wrappers
  import opened X690
  import opened Asn1Schema
  import opened Asn1Encoding

  /** Ascending encodings. */
  predicate Ascending(t: Type, vs: seq<Value>) {
    forall i :: 0 <= i < |vs| - 1 ==> OctetsLe(I2d(t, vs[i]), I2d(t, vs[i + 1]))
  }

  lemma AscendingTail(t: Type, vs: seq<Value>)
    requires Ascending(t, vs) && vs != []
    ensures Ascending(t, vs[1..])
  {
    hide I2d;
    hide OctetsLe;
    var ws := vs[1..];
    forall i | 0 <= i < |ws| - 1 ensures OctetsLe(I2d(t, ws[i]), I2d(t, ws[i + 1])) {
      assert ws[i] == vs[i + 1] && ws[i + 1] == vs[i + 1 + 1];
    }
  }

  lemma {:induction false} OctetsTotal(a: seq<byte>, b: seq<byte>)
    ensures OctetsLe(a, b) || OctetsLe(b, a)
  {
    if a != [] && b != [] {
      OctetsTotal(a[1..], b[1..]);
    }
  }

  lemma {:induction false} InsertAscends(t: Type, v: Value, vs: seq<Value>)
    requires Ascending(t, vs)
    ensures Ascending(t, Insert(t, v, vs))
    ensures Insert(t, v, vs)[0] == v || (vs != [] && Insert(t, v, vs)[0] == vs[0])
    decreases |vs|
  {
    hide I2d;
    hide OctetsLe;
    if vs == [] {
    } else if OctetsLe(I2d(t, v), I2d(t, vs[0])) {
    } else {
      OctetsTotal(I2d(t, v), I2d(t, vs[0]));
      var more := Insert(t, v, vs[1..]);
      AscendingTail(t, vs);
      InsertAscends(t, v, vs[1..]);
      var r := [vs[0]] + more;
      forall i | 0 <= i < |r| - 1 ensures OctetsLe(I2d(t, r[i]), I2d(t, r[i + 1])) {
        if i > 0 {
          assert r[i] == more[i - 1] && r[i + 1] == more[i];
        } else if |vs| > 1 {
          assert OctetsLe(I2d(t, vs[0]), I2d(t, vs[0 + 1]));
        }
      }
    }
  }

  lemma {:induction false} SortAscends(t: Type, vs: seq<Value>)
    ensures Ascending(t, Sort(t, vs))
  {
    if vs != [] {
      SortAscends(t, vs[1..]);
      InsertAscends(t, vs[0], Sort(t, vs[1..]));
    }
  }

  lemma {:induction false} AscendingIsSorted(t: Type, vs: seq<Value>)
    requires Ascending(t, vs)
    ensures Sort(t, vs) == vs
  {
    hide I2d;
    hide OctetsLe;
    if vs != [] {
      AscendingTail(t, vs);
      AscendingIsSorted(t, vs[1..]);
      if |vs| > 1 {
        assert OctetsLe(I2d(t, vs[0]), I2d(t, vs[0 + 1]));
      }
    }
  }

  // ----- permutations -----

  function Encodings(t: Type, vs: seq<Value>): (r: seq<seq<byte>>)
    ensures |r| == |vs| && forall i :: 0 <= i < |vs| ==> r[i] == I2d(t, vs[i])
  {
    seq(|vs|, i requires 0 <= i < |vs| => I2d(t, vs[i]))
  }

  lemma {:induction false} SameEncodings(t: Type, vs: seq<Value>, ws: seq<Value>)
    requires Encodings(t, vs) == Encodings(t, ws)
    ensures I2dAll(t, vs) == I2dAll(t, ws)
    decreases |vs|
  {
    hide I2d;
    var a, b := Encodings(t, vs), Encodings(t, ws);
    assert |a| == |vs| && |b| == |ws|;
    if vs != [] {
      assert a[0] == b[0];
      assert Encodings(t, vs[1..]) == a[1..] && Encodings(t, ws[1..]) == b[1..];
      SameEncodings(t, vs[1..], ws[1..]);
    }
  }

  lemma HeadApart<T>(s: seq<T>)
    requires s != []
    ensures s == [s[0]] + s[1..] && multiset(s[1..]) == multiset(s) - multiset{s[0]}
  {
    assert s == [s[0]] + s[1..];
  }

  lemma ElementApart<T>(s: seq<T>, i: nat)
    requires i < |s|
    ensures multiset(s[..i] + s[i + 1..]) == multiset(s) - multiset{s[i]}
  {
    assert s == s[..i] + [s[i]] + s[i + 1..];
  }

  lemma PutBack<T>(a: multiset<T>, b: multiset<T>, x: T)
    requires x in a && x in b && a - multiset{x} == b - multiset{x}
    ensures a == b
  {
    assert a == a - multiset{x} + multiset{x};
    assert b == b - multiset{x} + multiset{x};
  }

  lemma EncodingsTail(t: Type, vs: seq<Value>)
    requires vs != []
    ensures Encodings(t, vs[1..]) == Encodings(t, vs)[1..]
  {
    hide I2d;
  }

  lemma EncodingsWithout(t: Type, vs: seq<Value>, i: nat)
    requires i < |vs|
    ensures var a := Encodings(t, vs);
            Encodings(t, vs[..i] + vs[i + 1..]) == a[..i] + a[i + 1..]
  {
    hide I2d;
    var a, less := Encodings(t, vs), vs[..i] + vs[i + 1..];
    var b, c := Encodings(t, less), a[..i] + a[i + 1..];
    forall k | 0 <= k < |b| ensures b[k] == c[k] {
      assert less[k] == vs[if k < i then k else k + 1];
    }
  }

  lemma {:induction false} PermutedEncodings(t: Type, vs: seq<Value>, ws: seq<Value>)
    requires multiset(vs) == multiset(ws)
    ensures multiset(Encodings(t, vs)) == multiset(Encodings(t, ws))
    decreases |vs|
  {
    hide I2d;
    hide Encodings;
    if vs == [] {
      assert |multiset(ws)| == 0;
      assert Encodings(t, vs) == Encodings(t, ws) == [];
    } else {
      assert vs[0] in multiset(ws);
      var i :| 0 <= i < |ws| && ws[i] == vs[0];
      var less := ws[..i] + ws[i + 1..];
      HeadApart(vs);
      ElementApart(ws, i);
      PermutedEncodings(t, vs[1..], less);
      var a, b := Encodings(t, vs), Encodings(t, ws);
      EncodingsTail(t, vs);
      EncodingsWithout(t, ws, i);
      HeadApart(a);
      ElementApart(b, i);
      PutBack(multiset(a), multiset(b), a[0]);
    }
  }

  predicate AscendingOctets(a: seq<seq<byte>>) {
    forall i :: 0 <= i < |a| - 1 ==> OctetsLe(a[i], a[i + 1])
  }

  lemma {:induction false} OctetsTransitive(a: seq<byte>, b: seq<byte>, c: seq<byte>)
    requires OctetsLe(a, b) && OctetsLe(b, c)
    ensures OctetsLe(a, c)
  {
    if a != [] && a[0] == b[0] == c[0] {
      OctetsTransitive(a[1..], b[1..], c[1..]);
    }
  }

  lemma {:induction false} OctetsAntisymmetric(a: seq<byte>, b: seq<byte>)
    requires OctetsLe(a, b) && OctetsLe(b, a)
    ensures a == b
  {
    if a != [] {
      OctetsAntisymmetric(a[1..], b[1..]);
      assert a == [a[0]] + a[1..] && b == [b[0]] + b[1..];
    }
  }

  lemma {:induction false} HeadLeast(a: seq<seq<byte>>, i: nat)
    requires AscendingOctets(a) && i < |a|
    ensures OctetsLe(a[0], a[i])
  {
    if i == 0 {
      OctetsTotal(a[0], a[0]);
    } else {
      HeadLeast(a, i - 1);
      assert OctetsLe(a[i - 1], a[i - 1 + 1]);
      OctetsTransitive(a[0], a[i - 1], a[i]);
    }
  }

  lemma {:induction false} AscendingUnique(a: seq<seq<byte>>, b: seq<seq<byte>>)
    requires AscendingOctets(a) && AscendingOctets(b) && multiset(a) == multiset(b)
    ensures a == b
    decreases |a|
  {
    hide OctetsLe;
    if a == [] {
      assert |multiset(b)| == 0;
    } else {
      assert a[0] in multiset(b) && |multiset(b)| == |b|;
      assert b[0] in multiset(a);
      var i :| 0 <= i < |b| && b[i] == a[0];
      var j :| 0 <= j < |a| && a[j] == b[0];
      HeadLeast(b, i);
      HeadLeast(a, j);
      OctetsAntisymmetric(a[0], b[0]);
      HeadApart(a);
      HeadApart(b);
      assert AscendingOctets(a[1..]) by { AscendingOctetsTail(a); }
      assert AscendingOctets(b[1..]) by { AscendingOctetsTail(b); }
      AscendingUnique(a[1..], b[1..]);
    }
  }

  lemma AscendingOctetsTail(a: seq<seq<byte>>)
    requires AscendingOctets(a) && a != []
    ensures AscendingOctets(a[1..])
  {
    hide OctetsLe;
    var b := a[1..];
    forall i | 0 <= i < |b| - 1 ensures OctetsLe(b[i], b[i + 1]) {
      assert b[i] == a[i + 1] && b[i + 1] == a[i + 1 + 1];
    }
  }

  /** Two stacks with the same elements are written as the same SET OF. */
  lemma SetOrderIrrelevant(elem: Type, tagging: Tagging, vs: seq<Value>, ws: seq<Value>)
    requires multiset(vs) == multiset(ws)
    ensures I2dColl(elem, true, tagging, vs) == I2dColl(elem, true, tagging, ws)
  {
    hide I2d;
    hide OctetsLe;
    var sv, sw := Sort(elem, vs), Sort(elem, ws);
    SortAscends(elem, vs);
    SortAscends(elem, ws);
    PermutedEncodings(elem, sv, sw);
    AscendingEncodings(elem, sv);
    AscendingEncodings(elem, sw);
    AscendingUnique(Encodings(elem, sv), Encodings(elem, sw));
    SameEncodings(elem, sv, sw);
  }

  lemma AscendingEncodings(t: Type, vs: seq<Value>)
    requires Ascending(t, vs)
    ensures AscendingOctets(Encodings(t, vs))
  {
    hide I2d;
    hide OctetsLe;
    var a := Encodings(t, vs);
    forall i | 0 <= i < |a| - 1 ensures OctetsLe(a[i], a[i + 1]) {
      assert OctetsLe(I2d(t, vs[i]), I2d(t, vs[i + 1]));
    }
  }
}
