/**
 Reading base64 text over any number of updates, as an EVP_ENCODE_CTX does while decoding.
 */
module EvpDecode {
  import opened Wrappers
  import opened EvpBase64

  /** Characters of a full line. */
  const TEXT_LINE: nat := 64

  /** The part of `t` that fills whole lines. */
  function Whole(t: string): (n: nat)
    ensures n <= |t| < n + TEXT_LINE && n % 4 == 0
  {
    |t| / TEXT_LINE * TEXT_LINE
  }

  /** An update that has `t` to read, pending characters first; `ended` says that padding has
      been seen, behind which nothing may follow. */
  function Step(ended: bool, t: string): (r: Option<seq<byte>>)
    ensures r.Some? ==> |r.value| <= Whole(t) / 4 * 3
  {
    var n := Whole(t);
    if ended && t != [] then None
    else if '=' in t[..n] && n < |t| then None
    else DecodeBlock(t[..n])
  }

  /** Pending characters never make an update outgrow the buffer, however many groups of `u`
      it has decoded when it ends or refuses. */
  ghost predicate Fits(u: string, input: string) {
    forall k: nat | k <= Whole(u) ::
      var r := DecodeBlock(u[..k]);
      r.Some? ==> |r.value| <= DecodeLength(|input|)
  }

  lemma StepFits(ended: bool, pending: string, input: string)
    requires |pending| < TEXT_LINE
    ensures var u := pending + Strip(input);
            var r := Step(ended, u);
            Fits(u, input) && (r.Some? ==> |r.value| <= DecodeLength(|input|))
  {
    hide DecodeBlock;
    hide Strip;
    hide Whole;
    var u := pending + Strip(input);
    assert Whole(u) <= |input| + 63;
    forall k: nat | k <= Whole(u) && DecodeBlock(u[..k]).Some?
      ensures |DecodeBlock(u[..k]).value| <= DecodeLength(|input|)
    {
      assert |u[..k]| == k <= |input| + 63;
    }
  }

  // ----- decoding in two parts -----

  lemma PaddingEnds(t: char, u: char, v: char, w: char)
    ensures '=' in [t, u, v, w] ==> DecodeFour(t, u, v, w, false).None?
    ensures '=' !in [t, u, v, w] ==> DecodeFour(t, u, v, w, true) == DecodeFour(t, u, v, w, false)
  {
  }

  /** Text behind whole groups of four is decoded by itself, and refused behind padding. */
  lemma {:induction false} DecodeJoin(a: string, b: string)
    requires |a| % 4 == 0 && b != []
    ensures DecodeBlock(a + b) == if '=' in a then None else Joined(DecodeBlock(a), DecodeBlock(b))
    decreases |a|
  {
    hide DecodeFour;
    if a == [] {
      assert a + b == b && DecodeBlock(a) == Some([]);
      JoinedNothing(DecodeBlock(b));
    } else {
      DecodeJoin(a[4..], b);
      var four := [a[0], a[1], a[2], a[3]];
      assert a == four + a[4..] && (a + b)[4..] == a[4..] + b;
      PaddingEnds(a[0], a[1], a[2], a[3]);
      JoinedThrice(DecodeFour(a[0], a[1], a[2], a[3], false), DecodeBlock(a[4..]), DecodeBlock(b));
    }
  }

  lemma JoinedNothing(x: Option<seq<byte>>)
    ensures Joined(Some([]), x) == x == Joined(x, Some([]))
  {
    if x.Some? {
      assert [] + x.value == x.value == x.value + [];
    }
  }

  lemma JoinedThrice(x: Option<seq<byte>>, y: Option<seq<byte>>, z: Option<seq<byte>>)
    ensures Joined(x, Joined(y, z)) == Joined(Joined(x, y), z)
  {
    if x.Some? && y.Some? && z.Some? {
      assert x.value + (y.value + z.value) == x.value + y.value + z.value;
    }
  }

  // ----- the state between updates -----

  /** After the characters `t` the lines so far gave `done`, and `pending` is the rest. */
  ghost predicate Reached(t: string, done: seq<byte>, pending: string, ended: bool) {
    var n := Whole(t);
    && pending == t[n..]
    && DecodeBlock(t[..n]) == Some(done)
    && (ended <==> '=' in t[..n])
    && (ended ==> pending == [])
  }

  /** No text that starts with `t` is base64. */
  ghost predicate Refused(t: string) {
    forall more :: DecodeBlock(t + more) == None
  }

  lemma RefusedBehind(a: string, b: string)
    requires |a| % 4 == 0
    requires DecodeBlock(a) == None || ('=' in a && b != [])
    ensures Refused(a + b)
  {
    hide DecodeBlock;
    forall more ensures DecodeBlock(a + b + more) == None {
      assert a + b + more == a + (b + more);
      if b + more == [] {
        assert a + (b + more) == a;
      } else {
        DecodeJoin(a, b + more);
      }
    }
  }

  /** One update keeps the state in step with the text, or shows the text to be refused. */
  lemma StepReaches(t: string, x: string, done: seq<byte>, pending: string, ended: bool)
    requires Reached(t, done, pending, ended)
    ensures var u := pending + x;
            var n := Whole(u);
            match Step(ended, u)
            case None => Refused(t + x)
            case Some(out) => Reached(t + x, done + out, u[n..], ended || '=' in u[..n])
  {
    hide DecodeBlock;
    hide Refused;
    hide Whole;
    var m, u := Whole(t), pending + x;
    var n := Whole(u);
    var a, b, c := t[..m], u[..n], u[n..];
    assert u == b + c;
    Cut(t, x);
    if ended && u != [] {
      RefusedBehind(a, u);
    } else {
      LinesJoin(a, b);
      if Step(ended, u).None? {
        RefusedBehind(a + b, c);
      }
    }
  }

  lemma Cut(t: string, x: string)
    ensures var m := Whole(t);
            var u := t[m..] + x;
            var n := Whole(u);
            && t + x == t[..m] + u == t[..m] + u[..n] + u[n..]
            && Whole(t + x) == m + n
            && (t + x)[..m + n] == t[..m] + u[..n] && (t + x)[m + n..] == u[n..]
  {
    var m := Whole(t);
    var u := t[m..] + x;
    var n := Whole(u);
    MoreLines(|t| / TEXT_LINE, |u|);
    hide Whole;
    assert t == t[..m] + t[m..];
    assert t + x == t[..m] + u;
    assert u == u[..n] + u[n..];
  }

  lemma MoreLines(lines: nat, n: nat)
    ensures (lines * TEXT_LINE + n) / TEXT_LINE == lines + n / TEXT_LINE
  {
  }

  lemma LinesJoin(a: string, b: string)
    requires |a| % 4 == 0 && DecodeBlock(a).Some? && ('=' in a ==> b == [])
    ensures DecodeBlock(a + b) == Joined(DecodeBlock(a), DecodeBlock(b))
    ensures '=' in a + b <==> '=' in a || '=' in b
  {
    if b == [] {
      assert a + b == a && DecodeBlock(b) == Some([]);
      JoinedNothing(DecodeBlock(a));
    } else {
      DecodeJoin(a, b);
    }
  }

  // ----- EVP_ENCODE_CTX -----

  /** EVP_ENCODE_CTX while decoding: `encData[..num]` waits for a full line. */
  class DecodeCtx {
    const encData: array<char>
    var num: nat
    var ended: bool

    ghost predicate Valid()
      reads this
    {
      encData.Length == 80 && num < TEXT_LINE
    }

    ghost function Pending(): string
      reads this, encData
      requires Valid()
    {
      encData[..num]
    }

    /** `EVP_DecodeInit` */
    constructor ()
      ensures Valid() && Pending() == [] && !ended && fresh(encData)
    {
      encData := new char[80](_ => ' ');
      num, ended := 0, false;
    }

    /** Keep `s` for the next update. */
    method Save(s: string)
      requires encData.Length == 80 && |s| < TEXT_LINE
      modifies this`num, encData
      ensures Valid() && Pending() == s
    {
      num := 0;
      while num < |s|
        invariant 0 <= num <= |s|
        invariant encData[..num] == s[..num]
      {
        encData[num] := s[num];
        num := num + 1;
      }
      assert s[..num] == s;
    }

    /** `EVP_DecodeUpdate`; `None` stands for a negative result. */
    method Update(input: string) returns (out: Option<seq<byte>>)
      requires Valid()
      modifies this, encData
      ensures var u := old(Pending()) + Strip(input);
              && out == Step(old(ended), u)
              && (out.Some? ==> Valid() && Pending() == u[Whole(u)..]
                                && ended == (old(ended) || '=' in u[..Whole(u)]))
      ensures out.Some? ==> |out.value| <= DecodeLength(|input|)
      // also of what was decoded before a refusal
      ensures Fits(old(Pending()) + Strip(input), input)
    {
      hide DecodeBlock;
      hide Strip;
      hide Fits;
      StepFits(ended, Pending(), input);
      var u := encData[..num] + Strip(input);
      var n := |u| / TEXT_LINE * TEXT_LINE;
      if ended && u != [] {
        return None;
      }
      if '=' in u[..n] {
        ended := true;
        if n < |u| {
          return None;
        }
      }
      out := DecodeBlock(u[..n]);
      Save(u[n..]);
    }

    /** `EVP_DecodeFinal` */
    method Final() returns (out: Option<seq<byte>>)
      requires Valid()
      ensures out == DecodeBlock(Pending())
      ensures out.Some? ==> |out.value| <= DecodeLength(0)
    {
      out := DecodeBlock(encData[..num]);
    }
  }

  /** Init, updates, Final: what is decoded, and whether the text is refused, does not depend
      on how the text was cut up. */
  method DecodeParts(parts: seq<string>) returns (r: Option<seq<byte>>)
    ensures r == Decode(Concat(parts))
  {
    hide DecodeBlock;
    hide Strip;
    hide Reached;
    hide Refused;
    hide Step;
    var c := new DecodeCtx();
    var done := [];
    var i := 0;
    NothingRead();
    while i < |parts|
      invariant 0 <= i <= |parts|
      invariant fresh(c) && fresh(c.encData) && c.Valid()
      invariant Reached(Strip(Concat(parts[..i])), done, c.Pending(), c.ended)
    {
      ConcatNext(parts, i);
      StripJoin(Concat(parts[..i]), parts[i]);
      StepReaches(Strip(Concat(parts[..i])), Strip(parts[i]), done, c.Pending(), c.ended);
      var out := c.Update(parts[i]);
      if out == None {
        RefusedText(parts, i + 1);
        return None;
      }
      done := done + out.value;
      i := i + 1;
    }
    assert parts[..i] == parts;
    Finished(Strip(Concat(parts)), done, c.Pending(), c.ended);
    var out := c.Final();
    r := if out.Some? then Some(done + out.value) else None;
  }

  lemma NothingRead()
    ensures Reached(Strip(Concat<char>([])), [], [], false)
  {
  }

  lemma Finished(t: string, done: seq<byte>, pending: string, ended: bool)
    requires Reached(t, done, pending, ended)
    ensures DecodeBlock(t) == Joined(Some(done), DecodeBlock(pending))
  {
    hide DecodeBlock;
    hide Whole;
    var n := Whole(t);
    assert t == t[..n] + t[n..];
    LinesJoin(t[..n], t[n..]);
  }

  lemma {:induction false} ConcatSplit(parts: seq<string>, i: nat)
    requires i <= |parts|
    ensures Concat(parts) == Concat(parts[..i]) + Concat(parts[i..])
    decreases |parts|
  {
    if i == |parts| {
      assert parts[..i] == parts && parts[i..] == [];
      assert Concat(parts) + [] == Concat(parts);
    } else {
      var most := parts[..|parts| - 1];
      ConcatSplit(most, i);
      assert most[..i] == parts[..i] && most[i..] == parts[i..][..|parts[i..]| - 1];
    }
  }

  lemma RefusedText(parts: seq<string>, i: nat)
    requires i <= |parts| && Refused(Strip(Concat(parts[..i])))
    ensures Decode(Concat(parts)) == None
  {
    hide DecodeBlock;
    ConcatSplit(parts, i);
    StripJoin(Concat(parts[..i]), Concat(parts[i..]));
  }
}
