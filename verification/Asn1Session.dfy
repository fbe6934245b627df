/**
 A caller's use of an i2d/d2i pair: size, allocate, write, read back.
 */
module Asn1Session {
  import opened Wrappers
  import opened X690
  import opened Asn1Schema
  import opened Asn1Encoding
  import opened Asn1Decoding
  import opened Asn1Merge
  import opened Asn1RoundTrip
  import opened Asn1Encoder
  import opened Asn1Decoder

  /** The sizing call announces exactly what the writing call writes and moves its pointer by
      and what the reading call moves its pointer by. A canonical structure comes back, and
      no other one does. */
  method SaveAndLoad(fs: Fields, indefinite: bool, vs: seq<Value>)
    returns (sized: nat, written: nat, consumed: nat, octets: seq<byte>, loaded: Value)
    requires FieldsDistinct(fs) && FieldsFit(fs, vs)
    requires |I2d(Rec(fs, indefinite), Record(vs))| <= INT_MAX
    ensures sized == written == consumed == |octets|
    ensures octets == I2d(Rec(fs, indefinite), Record(vs))
    ensures loaded == Record(vs) <==> CanonFields(fs, vs)
  {
    hide I2d;
    hide D2iRec;
    hide CanonFields;
    var buf;
    sized, written, buf := Save(Rec(fs, indefinite), Record(vs));
    octets := buf[..];
    ReadsBack(fs, indefinite, vs, octets);
    var pp := new InPtr(0);
    assert buf[0..sized] == octets;
    var ret, reply, made := D2iObject(fs, null, pp, buf, sized);
    consumed := pp.pos;
    loaded := Record(ret.fields);
  }

  /** Size, allocate, write. */
  method Save(t: Type, v: Value) returns (sized: nat, written: nat, buf: array<byte>)
    requires Fits(t, v)
    ensures fresh(buf) && buf[..] == I2d(t, v)
    ensures sized == written == |I2d(t, v)|
  {
    hide I2d;
    hide Fits;
    sized := I2dValue(t, v, null);
    buf := new byte[sized](_ => 0);
    var end := new OutPtr(buf, 0);
    var r := I2dValue(t, v, end);
    written := end.pos;
  }

  lemma ReadsBack(fs: Fields, indefinite: bool, vs: seq<Value>, octets: seq<byte>)
    requires FieldsDistinct(fs) && FieldsFit(fs, vs)
    requires |I2d(Rec(fs, indefinite), Record(vs))| <= INT_MAX
    requires octets == I2d(Rec(fs, indefinite), Record(vs))
    ensures var r := D2iRec(fs, Null, octets);
            r.Ok? && r.used == |octets| && (r.value == Record(vs) <==> CanonFields(fs, vs))
  {
    assert octets == I2d(Rec(fs, indefinite), Record(vs)) + [];
    RoundTrip(Rec(fs, indefinite), Record(vs), []);
    hide D2iRec;
    hide I2dFields;
    hide CanonFields;
  }
}
