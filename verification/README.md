# Verification of the OpenSSL codec headers

The OpenSSL headers under `MailCore/iOSPorts/include/openssl` carry executable code as
multi-statement macros. This project models that code in Dafny and proves what it is for.

**ASN.1 (`asn1_mac.h`, `asn1.h`).** A `d2i_X`/`i2d_X` pair is a list of `M_ASN1_*` macro
calls. A schema (`Asn1Schema`) is that list, one constructor per macro family; nested types
and collections may use the definite or the indefinite form. `Asn1Encoding` and
`Asn1Decoding` say, as functions on octets, what a schema writes and reads. `Asn1Encoder`
and `Asn1Decoder` are the macros themselves: the two-pass encoder with `ret`, `p` and the
saved explicit lengths, and the cursor machine on `ASN1_const_CTX` with `p`, `q`, `slen`,
`inf`, `eos`, the in-place rewrite of tag octets, the pointers `*pp` and `*a` and the `err`
exit. Each machine method is proved to compute its function. `Asn1SetOrder` and `Asn1Merge`
say what the encoder forgets: the order of a SET OF and the difference between an absent and
an empty member; a value that loses nothing is canonical. `Asn1RoundTrip`, `Asn1Distinct`,
`Asn1Destination`, `Asn1Failure`, `Asn1Untouched`, `Asn1Explicit`, `Asn1Laws`, `Asn1Framing`
and `Asn1Strict` hold the theorems. `X690Laws` and `Asn1Octets` tell what is written and
read in octets, without the functions that encoder and decoder share, and `Asn1Session`
puts the encoder and the decoder together as a caller does.

**BIGNUM (`bn.h`).** `BigNat` is the arithmetic of digit sequences, `Bignum` the structure
with `d`, `top`, `dmax` and `neg` and the macros that keep it normalised, for 32-bit and
64-bit words and for release, debug and polluting builds. `Montgomery` is the arithmetic
behind `struct bn_mont_ctx_st`, `Decimal` the conversion that the `BN_DEC_*` constants
parametrise.

**Base64 (`evp.h`).** `EvpBase64` encodes line by line over any number of updates,
`EvpDecode` decodes over any number of updates, and both bound every single update by the
buffer size macros. `EvpAlphabet` ties the text to the table, the bits, the padding and the
line ends of the standard.

## Definitions for bodies the headers only declare

- `ASN1_get_object`, `ASN1_put_object`, `ASN1_object_size`, `ASN1_const_check_infinite_end`:
  X.690 sections 8.1.2 to 8.1.5, tags below 31. A definite length that exceeds the budget is
  an error, as is an indefinite length on a primitive tag.
- The `func` argument of a macro, called with a negative length (`get_EXP_opt` subtracts 2
  without a test): there is nothing to read, so it fails.
- `asn1_GetSequence`, `asn1_const_Finish`: identifier octet 0x30; at the end an indefinite
  sequence must close and a definite one must be used up (the comment on
  `M_ASN1_D2I_Finish_nolen` says that the other Finish checks the length).
- `i2d_ASN1_SET`, `d2i_ASN1_SET`: header, elements, and with IS_SET ascending encodings
  (X.690 section 11.6). A successful read replaces the stack that the destination held, a
  failed read leaves it alone. What is said about existing objects rests on this: a body that
  pushed onto the existing stack would let old elements of a SET OF show through.
- Leaf codecs: a primitive tag around arbitrary contents octets. A NULL pointer is encoded
  as nothing, as `M_ASN1_I2D_vars` does.
- `bn_expand2`: a new array with at least the words asked for, holding the old words.
- `BN_num_bits`: the number of significant bits.
- `BN_mod_mul_montgomery`, `BN_from_montgomery`: the reduction that the comment on `Ni` describes.
- `EVP_EncodeUpdate` and its relatives: RFC 4648 section 4 in lines of 48 octets (RFC 1421
  section 4.3.2.4). A decode update drops line ends, decodes whole lines of 64 characters and
  keeps the rest; behind padding nothing may follow.

## Where the code does not do what one might expect

- Not every value comes back: exactly the canonical ones do (`Asn1RoundTrip.RoundTrip`). An
  empty SET OF or SEQUENCE OF under an `_opt` macro comes back absent, and an IS_SET stack
  comes back sorted. `Asn1RoundTrip.EmptyComesBackAbsent` is a value that does not.
- Not every schema round-trips: exactly those do whose optional fields cannot be taken for a
  later field (`Asn1Distinct.RoundTripsExactly`).
- An EXPLICIT field in definite form is not checked against its declared length. It ends there
  exactly when the header inside ends there (`Asn1Explicit.ExplicitEnd`);
  `Asn1Explicit.ExplicitSlack` is an accepted input where it does not.
- A d2i function can accept octets that are no X.690 data value: exactly when the schema has
  an EXPLICIT field at some depth (`Asn1Strict.StrictExactly`); `Asn1Strict.MalformedAccepted`
  is such an input.
- The indefinite form of an EXPLICIT field can pass a negative length on: exactly when fewer
  than four octets are left (`Asn1Explicit.NegativeTlen`, `Asn1Explicit.MinusTwo`).
- The reported offset is the start of a field that cannot be read exactly when the field list
  fails. When `Finish` fails it is the start of the last field that was read, which is not at
  fault (`Asn1Failure.ReportedOffset`, `Asn1Failure.ReportsGoodField`).
- A failed decode restores `*a` and `*pp` but not the object (`Asn1Failure.StoresThenFails`).
  Octets that are refused leave every object as it was exactly when the header is refused, or
  no field is present, or the first one that is cannot be read and itself stores nothing
  (`Asn1Untouched.UntouchedExactly`).
- Decoding into an existing object keeps the old value of an optional member that the input
  omits (`Asn1Destination.DecodeIntoExisting`, `Asn1Destination.BlankObject`).
- `BN_abs_is_word` needs a normalised number (`Bignum.AbsIsWordExactly`); `Bignum.AbsIsWordFails` is one
  for which it is wrong.

## Model

| member | source | states |
|---|---|---|
| Asn1RoundTrip.RoundTrip | MailCore/iOSPorts/include/openssl/asn1_mac.h:106-570 | Decoding undoes encoding: for every schema with distinguishable optional fields, every well-typed value and every continuation of the input, D2I over the octets I2D wrote uses exactly those octets, and what comes back is the value itself if and only if it is canonical (no empty stack under an _opt macro, IS_SET stacks ascending, at every level). |
| Asn1RoundTrip.RoundTripFields | MailCore/iOSPorts/include/openssl/asn1_mac.h:129-353 | The same for the get macros of a field list behind the put macros of that list, inside a definite or an indefinite sequence: the members that were written come back exactly when they are canonical. |
| Asn1RoundTrip.RoundTripField | MailCore/iOSPorts/include/openssl/asn1_mac.h:474-555 | A field that was written (plain, optional, IMPLICIT, EXPLICIT, SET OF, explicitly tagged SET OF) is read back whatever octets follow it: its very value exactly when that is canonical. |
| Asn1RoundTrip.RoundTripAll | MailCore/iOSPorts/include/openssl/asn1_mac.h:124-133 | The element loop on end_sequence reads back the elements that were written, themselves exactly when they are canonical; in the indefinite form it stops just past the two zero octets, in the definite form at the declared end. |
| Asn1RoundTrip.RoundTripExplicit | MailCore/iOSPorts/include/openssl/asn1_mac.h:277-300 | An EXPLICIT field round-trips in the definite form and in the indefinite form, with its budget reduced by the two closing octets: the value inside comes back exactly when it is canonical. |
| Asn1Merge.MergeIdentity | MailCore/iOSPorts/include/openssl/asn1_mac.h:387-420 | What the wire keeps of a value is the whole value if and only if it is canonical. |
| Asn1RoundTrip.EmptyComesBackAbsent | MailCore/iOSPorts/include/openssl/asn1_mac.h:195-207 | Concrete value with an empty stack under an _opt macro: it is written as nothing and comes back as NULL. |
| Asn1RoundTrip.OmittedIsSkipped | MailCore/iOSPorts/include/openssl/asn1_mac.h:149-177 | Behind an omitted optional field the guard of its get macro is false, up to the next field that must be present or the end of the sequence. |
| Asn1Distinct.RoundTripsExactly | MailCore/iOSPorts/include/openssl/asn1_mac.h:149-177 | Exact condition: every canonical value of a schema comes back as itself if and only if no optional field can be taken for a field that may come after it (checkable on the schema alone). |
| Asn1Distinct.VictimLost | MailCore/iOSPorts/include/openssl/asn1_mac.h:149-177 | For any other schema a concrete canonical value is built that never comes back, whatever follows it in the input. |
| Asn1Laws.PrefixFree | MailCore/iOSPorts/include/openssl/asn1_mac.h:384-570 | No encoding of a schema with distinguishable optional fields, up to a C int in size, is a proper prefix of another, and equal octets mean equal canonical values. |
| Asn1Destination.DestinationIrrelevant | MailCore/iOSPorts/include/openssl/asn1_mac.h:75-104 | For any octets, acceptance, the octets used, the error and the reported offset do not depend on the object that is decoded into. |
| Asn1Destination.DecodeIntoExisting | MailCore/iOSPorts/include/openssl/asn1_mac.h:75-84 | For any accepted octets, decoding into a supplied object equals decoding into a fresh one if and only if the message sets every optional member of the object that is not NULL: a skipped member keeps its old value. |
| Asn1Destination.BlankIsGood | MailCore/iOSPorts/include/openssl/asn1_mac.h:75-84 | A supplied object whose optional members are NULL at every reused level gives the same reply as a fresh one for any octets. |
| Asn1Destination.BlankObject | MailCore/iOSPorts/include/openssl/asn1_mac.h:75-84 | For a schema with distinguishable optional fields whose shortest message fits a C int, a supplied object behaves like a fresh one on all octets if and only if its optional members are NULL at every reused level. |
| Asn1Destination.RoundTripOver | MailCore/iOSPorts/include/openssl/asn1_mac.h:75-84 | For a schema with distinguishable optional fields and an encoding that fits a C int, a canonical value comes back into a supplied object if and only if it sets every optional member there that is not NULL. |
| Asn1Laws.Reencode | MailCore/iOSPorts/include/openssl/asn1_mac.h:384-570 | For a schema with distinguishable optional fields and an encoding that fits a C int, what comes back from the octets of any well-typed value is canonical, has those octets, and is the only canonical value that has them. |
| Asn1SetOrder.SetOrderIrrelevant | MailCore/iOSPorts/include/openssl/asn1_mac.h:387-420 | With IS_SET, two stacks holding the same elements in any order are written as the same octets. |
| Asn1Octets.CollWritten | MailCore/iOSPorts/include/openssl/asn1_mac.h:387-420 | A SET OF is octet 31, a SEQUENCE OF octet 30, a context-tagged collection a0 + tag, then the length and the encodings of the elements. A SEQUENCE OF keeps their order. A SET OF has each of them as often as the stack, and of two consecutive encodings the first is a prefix of the second or has the smaller octet where they part. |
| Asn1Octets.SmallerFirst | MailCore/iOSPorts/include/openssl/asn1_mac.h:387-420 | Concrete stack of the octet strings 2 and 1 under IS_SET: 31 06 04 01 01 04 01 02. |
| Asn1Octets.SequenceOfIsLoop | MailCore/iOSPorts/include/openssl/asn1_mac.h:179-233 | A SEQUENCE OF that put_SEQUENCE writes is what a loop on end_sequence reads, and get_seq reads what such a loop reads. |
| Asn1Octets.SequenceIsNoSet | MailCore/iOSPorts/include/openssl/asn1_mac.h:179-233 | Concrete input 30 03 04 01 07: get_seq reads it and get_set refuses it. |
| Asn1Octets.ValueWritten | MailCore/iOSPorts/include/openssl/asn1_mac.h:557-570 | The octets of a value: the tag and the length before the contents, for a structure 30 and either a length or 80 and two closing zero octets. |
| Asn1Octets.FieldsWritten | MailCore/iOSPorts/include/openssl/asn1_mac.h:474-555 | A field list is written one field behind the other in the order of the schema. |
| Asn1Octets.FieldWritten | MailCore/iOSPorts/include/openssl/asn1_mac.h:474-555 | The octets of every kind of field: plain and optional ones as they are, an IMPLICIT one with 80 or a0 plus its tag for its first octet, an EXPLICIT one behind a0 plus its tag in either length form. |
| Asn1Octets.NothingWritten | MailCore/iOSPorts/include/openssl/asn1_mac.h:195-207 | NULL is written as nothing, and so is an empty stack under an _opt macro; without the guard an empty stack is a header of two octets. |
| Asn1Octets.AnswersTo | MailCore/iOSPorts/include/openssl/asn1_mac.h:149-327 | The first octets that each optional get macro answers to; on any other it moves nothing. |
| Asn1Octets.TakenAndRefused | MailCore/iOSPorts/include/openssl/asn1_mac.h:149-177 | get_opt and get_IMP_opt do not look at the constructed bit: a value that differs from the expected one in that bit alone is taken for the field and refused. |
| Asn1Octets.PassedOver | MailCore/iOSPorts/include/openssl/asn1_mac.h:189-327 | The macros that compare the whole octet pass the same value over. |
| Asn1Octets.PrimitiveRead | MailCore/iOSPorts/include/openssl/asn1_mac.h:129-133 | A primitive value is read exactly when its header is one of those listed by X690Laws.HeaderExactly with its tag, and gives exactly the octets behind that header. |
| Asn1Octets.HeaderErrors | MailCore/iOSPorts/include/openssl/asn1_mac.h:106-133 | A header that cannot be read and a value with another identifier octet are told apart. |
| Asn1Octets.CollectionErrors | MailCore/iOSPorts/include/openssl/asn1_mac.h:124-133 | A collection fails behind its header at the first element that cannot be read. |
| Asn1Octets.TruncatedValue | MailCore/iOSPorts/include/openssl/asn1_mac.h:106-108 | A definite value that is cut off anywhere is refused with BAD_ASN1_OBJECT_HEADER. |
| Asn1Octets.ShortestPrimitive | MailCore/iOSPorts/include/openssl/asn1_mac.h:557-561 | No accepted encoding of a primitive value is shorter than the one that is written. |
| Asn1Laws.DecodedFits | MailCore/iOSPorts/include/openssl/asn1_mac.h:106-353 | Whatever octets are accepted, the result is a complete well-typed object. |
| Asn1Laws.Canonicalises | MailCore/iOSPorts/include/openssl/asn1_mac.h:106-570 | For a schema with distinguishable optional fields, any accepted input, in whatever length form, re-encodes (where that fits a C int) to octets that decode again in full, to a canonical value with those same octets. |
| Asn1Failure.FailurePoint | MailCore/iOSPorts/include/openssl/asn1_mac.h:98-104 | A failing field list reports the start of the first field that cannot be read; all fields before it were read up to that octet and stay stored, its own member holds what the failing field left, members after it are as they were. |
| Asn1Failure.ReportedOffset | MailCore/iOSPorts/include/openssl/asn1_mac.h:91-104 | For a whole structure: a bad header is reported at 0; behind a good one the reported octet starts an unreadable field if and only if the field list fails; when Finish fails it starts the last field that was read, or is 0 when there was none. |
| Asn1Failure.ReportsGoodField | MailCore/iOSPorts/include/openssl/asn1_mac.h:91-104 | Concrete input where the reported octet is the start of a field that was read correctly. |
| Asn1Untouched.UntouchedExactly | MailCore/iOSPorts/include/openssl/asn1_mac.h:75-104 | Refused octets leave every object that is decoded into as it was if and only if the header is refused, or no field is present before the end, or the first field that is present cannot be read and itself stores nothing: a nested structure recursively, an EXPLICIT field only when it fails before its closing octets. The condition is on the octets and the schema alone. |
| Asn1Failure.StoresThenFails | MailCore/iOSPorts/include/openssl/asn1_mac.h:75-104 | Concrete input where a failed decode has changed the object. |
| Asn1Explicit.ExplicitEnd | MailCore/iOSPorts/include/openssl/asn1_mac.h:277-327 | A definite EXPLICIT field that is accepted moves the cursor to its declared end if and only if the definite header inside declares that end too; behind an indefinite header inside it can only do so when the contents end in two zero octets. The macros check neither. |
| Asn1Explicit.ValueEnd | MailCore/iOSPorts/include/openssl/asn1_mac.h:106-133 | An accepted value in the definite form uses exactly the header and the declared contents, one in the indefinite form ends in 00 00. |
| Asn1Explicit.ExplicitErrors | MailCore/iOSPorts/include/openssl/asn1_mac.h:285-298 | The three errors of an EXPLICIT field: its header cannot be read, the value inside cannot be read, or it can and 00 00 does not follow. |
| Asn1Explicit.MissingClose | MailCore/iOSPorts/include/openssl/asn1_mac.h:294-297 | Concrete input a0 80 04 01 07 01 01: MISSING_ASN1_EOS. |
| Asn1Explicit.ExplicitSlack | MailCore/iOSPorts/include/openssl/asn1_mac.h:277-300 | Concrete input where it does not: the second half of the wrapper's contents is read as the next field, and the whole is accepted. |
| Asn1Explicit.NegativeTlen | MailCore/iOSPorts/include/openssl/asn1_mac.h:289-291 | The Tlen handed to the nested decoder is negative if and only if the form is indefinite and fewer than four octets are left; the field is then refused. |
| Asn1Explicit.MinusTwo | MailCore/iOSPorts/include/openssl/asn1_mac.h:289-291 | Concrete input with Tlen -2. |
| Asn1Strict.AcceptedIsTlv | MailCore/iOSPorts/include/openssl/asn1_mac.h:106-353 | With no EXPLICIT field in the schema, everything a d2i function accepts, from any input and into any object, is one complete data value by X.690 of exactly the size used. |
| Asn1Strict.StrictExactly | MailCore/iOSPorts/include/openssl/asn1_mac.h:277-327 | A schema accepts only well-formed data values if and only if it has no EXPLICIT field at any depth; for every other schema whose counterexample fits a C int a malformed accepted input is built. |
| Asn1Strict.MalformedAccepted | MailCore/iOSPorts/include/openssl/asn1_mac.h:277-300 | Concrete ten-octet input that is accepted and is no data value. |
| Asn1Framing.EncodingIsTlv | MailCore/iOSPorts/include/openssl/asn1_mac.h:379-570 | Everything I2D writes is one complete data value by X.690 sections 8.1.2 to 8.1.5 for a reader that knows no schema, at any nesting depth and in both length forms. |
| Asn1Framing.FieldIsTlv | MailCore/iOSPorts/include/openssl/asn1_mac.h:442-555 | The header an EXP put macro writes from the saved v declares exactly the octets written after it, and these are data values again; the same for every other field kind. |
| Asn1Framing.RetagIsTlv | MailCore/iOSPorts/include/openssl/asn1_mac.h:476-482 | Overwriting the tag but not the constructed bit, as put_IMP_opt does, keeps the framing of the value. |
| Asn1Decoder.D2iObject | MailCore/iOSPorts/include/openssl/asn1_mac.h:75-108 | A whole d2i function: on success *pp is at the final cursor, *a is set and the result is the decoded structure; on failure *pp and *a are unchanged, a fresh object is freed exactly once, a supplied one never; the input octets are as before; the reported error and offset are those of the specification. |
| Asn1Decoder.DecodeCtx.constructor | MailCore/iOSPorts/include/openssl/asn1_mac.h:75-88 | D2I_vars and D2I_Init: p and q start at *pp with the nested-error code, and max is NULL for length 0 and the end of the input otherwise. |
| Asn1Decoder.DecodeCtx.StartSequence | MailCore/iOSPorts/include/openssl/asn1_mac.h:106-108 | A wrong or ill-fitting header fails with q unmoved; otherwise the budget is exactly the contents octets. |
| Asn1Decoder.DecodeCtx.AtEnd | MailCore/iOSPorts/include/openssl/asn1_mac.h:124-126 | end_sequence: decides the end of the budget or the two zero octets; only the latter shifts p + slen, by exactly 2. |
| Asn1Decoder.DecodeCtx.Get | MailCore/iOSPorts/include/openssl/asn1_mac.h:129-133 | get: the nested decoder sees the remaining budget; on success p and slen move by the same amount, on failure q marks the field. |
| Asn1Decoder.DecodeCtx.GetOpt | MailCore/iOSPorts/include/openssl/asn1_mac.h:149-154 | get_opt: reads exactly when the budget is not empty and the next tag, less its constructed bit, matches; otherwise nothing moves. |
| Asn1Decoder.DecodeCtx.GetImp | MailCore/iOSPorts/include/openssl/asn1_mac.h:163-169 | get_imp: the inner decoder sees the universal tag with the constructed bit kept, and afterwards every octet of the buffer is what it was, on success and on failure. |
| Asn1Decoder.DecodeCtx.GetImpOpt | MailCore/iOSPorts/include/openssl/asn1_mac.h:171-177 | get_IMP_opt: the same on the taken, skipped and failing paths. |
| Asn1Decoder.DecodeCtx.GetExpOpt | MailCore/iOSPorts/include/openssl/asn1_mac.h:277-300 | get_EXP_opt in its definite and indefinite branch, with its header and end-of-contents errors; Tlen is computed without a test, negative or not. |
| Asn1Decoder.DecodeCtx.GetColl | MailCore/iOSPorts/include/openssl/asn1_mac.h:179-262 | get_set, get_seq, get_IMP_set and their _opt forms. |
| Asn1Decoder.DecodeCtx.GetExpColl | MailCore/iOSPorts/include/openssl/asn1_mac.h:302-327 | get_EXP_set_opt, in the same branches and with the same errors. |
| Asn1Decoder.DecodeCtx.GetUntilEnd | MailCore/iOSPorts/include/openssl/asn1_mac.h:124-133 | The loop on end_sequence terminates and collects exactly the specified elements; in the definite form it ends at the declared end, in the indefinite form just past the two zero octets. |
| Asn1Decoder.DecodeCtx.GetFields | MailCore/iOSPorts/include/openssl/asn1_mac.h:129-353 | Over every run of get steps p + slen is unchanged and slen stays non-negative; results, cursor, last field start and error are those of the specification. |
| Asn1Decoder.DecodeCtx.Finish | MailCore/iOSPorts/include/openssl/asn1_mac.h:91-95 | asn1_const_Finish as D2I_Finish uses it: an indefinite sequence must close, a definite one must be used up. |
| Asn1Decoding.D2iAll | MailCore/iOSPorts/include/openssl/asn1_mac.h:124-133 | The element loop as a function: in the definite form success means the whole budget was used. |
| Asn1Decoding.D2iField | MailCore/iOSPorts/include/openssl/asn1_mac.h:129-353 | A get step leaves the cursor where it is if and only if it skips. |
| Asn1Encoder.I2dRecord | MailCore/iOSPorts/include/openssl/asn1_mac.h:379-570 | A whole i2d function from I2D_vars to I2D_finish: the sizing and the writing call return the same r, the writing call advances *pp by it, and the octets are those of the specification with the rest of the buffer untouched. |
| Asn1Encoder.EncodeCtx.LenFields | MailCore/iOSPorts/include/openssl/asn1_mac.h:384-471 | The length macros add to ret exactly the number of octets the put macros will write, and save the inner length of every explicit field. |
| Asn1Encoder.EncodeCtx.PutFields | MailCore/iOSPorts/include/openssl/asn1_mac.h:474-555 | The put macros, given the saved lengths, write exactly the specified octets and move p over them. |
| Asn1Encoder.EncodeCtx.PutImp | MailCore/iOSPorts/include/openssl/asn1_mac.h:476-482 | put_IMP_opt: the encoding with the tag octet replaced after the fact, constructed bit kept. |
| Asn1Encoder.EncodeCtx.PutExp | MailCore/iOSPorts/include/openssl/asn1_mac.h:528-533 | put_EXP_opt: a header from the saved length, then the value. |
| Asn1Encoder.I2dSet | MailCore/iOSPorts/include/openssl/asn1_mac.h:387-555 | i2d_ASN1_SET: the length pass, which does not sort, agrees with the put pass, which does under IS_SET. |
| Asn1Session.SaveAndLoad | MailCore/iOSPorts/include/openssl/asn1_mac.h:75-570 | Size, allocate, write, read back: the sizing call announces exactly what is written and what either *pp moves by, and the record that is loaded is the record that was saved if and only if it is canonical. |
| X690.ReadWrapped | MailCore/iOSPorts/include/openssl/asn1.h:945-952 | A header written in either form is read back with the same form and cuts out exactly the contents octets. |
| X690.ReadWrittenHeader | MailCore/iOSPorts/include/openssl/asn1.h:945-952 | ASN1_get_object after ASN1_put_object recovers the length for every C int. |
| X690Laws.LengthTable | MailCore/iOSPorts/include/openssl/asn1.h:949-952 | The length octets up to INT_MAX written out: one below 80, then 81 to 84 and one to four octets. |
| X690Laws.ShortestHeader | MailCore/iOSPorts/include/openssl/asn1.h:949-952 | No header that declares the same length is shorter than the one that is written. |
| X690Laws.HeaderExactly | MailCore/iOSPorts/include/openssl/asn1.h:945-946 | The definite headers that are read: one length octet below 80, or 80 plus a count and that many octets, with all the declared contents there. |
| X690Laws.IndefiniteExactly | MailCore/iOSPorts/include/openssl/asn1.h:945-946 | The indefinite headers that are read: 80 behind a constructed identifier octet. |
| X690Laws.BigEndianDigits | MailCore/iOSPorts/include/openssl/asn1.h:945-946 | Length octets are digits in base 256, the most significant first. |
| X690Laws.PaddedLength | MailCore/iOSPorts/include/openssl/asn1.h:945-946 | Length octets with leading zeros, such as 82 00 05, are read like those without. |
| X690Laws.TruncatedHeader | MailCore/iOSPorts/include/openssl/asn1.h:945-946 | A definite value that is cut off anywhere is refused by its header. |
| X690Laws.DeclaresTooMuch | MailCore/iOSPorts/include/openssl/asn1.h:945-946 | Concrete input 04 81 85 01 02 03, which declares 133 octets and holds three, is refused. |
| X690.MasksAreBits | MailCore/iOSPorts/include/openssl/asn1.h:86-94 | The tag octet arithmetic of the model is the bit masking of the macros. |
| BigNat.NormalUnique | MailCore/iOSPorts/include/openssl/bn.h:732-740 | Two magnitudes that satisfy the bn_check_top condition and have equal value have equal words and equal top. |
| BigNat.NormalLeast | MailCore/iOSPorts/include/openssl/bn.h:732-740 | A normal form is a shortest representation of its value. |
| BigNat.TrimCanonical | MailCore/iOSPorts/include/openssl/bn.h:752-763 | Correcting two numbers gives the same words if and only if their values are equal. |
| Bignum.TrimIdempotent | MailCore/iOSPorts/include/openssl/bn.h:752-763 | Correcting twice is correcting once. |
| Bignum.BigNum.CorrectTop | MailCore/iOSPorts/include/openssl/bn.h:752-763 | bn_correct_top keeps the integer, ends with the least top that represents it, and touches no word that counts. |
| Bignum.BigNum.CheckTop | MailCore/iOSPorts/include/openssl/bn.h:732-740 | bn_check_top changes no word below top in any build. |
| Bignum.BigNum.Pollute | MailCore/iOSPorts/include/openssl/bn.h:711-729 | bn_pollute fills exactly the words from top to dmax, and only under BN_DEBUG_RAND. |
| Bignum.BigNum.FixTop | MailCore/iOSPorts/include/openssl/bn.h:742-748 | On a normalised number bn_fix_top leaves the same words below top and the same integer in release, debug and polluting builds. |
| Bignum.BigNum.ZeroEx | MailCore/iOSPorts/include/openssl/bn.h:395-400 | BN_zero_ex leaves a normalised zero with no sign. |
| Bignum.PredicatesDecide | MailCore/iOSPorts/include/openssl/bn.h:387-392 | On a normalised number BN_is_zero, BN_abs_is_word, BN_is_word, BN_is_one and BN_is_odd hold exactly when the signed integer is 0, has that magnitude, is that word, is 1, is odd. |
| Bignum.AbsIsWordExactly | MailCore/iOSPorts/include/openssl/bn.h:386-388 | Without normalisation BN_abs_is_word is right for every word if and only if at most one word counts or the magnitude exceeds a word. |
| Bignum.AbsIsWordFails | MailCore/iOSPorts/include/openssl/bn.h:386-388 | Concrete words for which it is wrong: the number one with a leading zero word. |
| Bignum.BigNum.Wexpand | MailCore/iOSPorts/include/openssl/bn.h:666-667 | bn_wexpand keeps the words below top and reallocates exactly when there are too few. |
| Bignum.BigNum.Expand | MailCore/iOSPorts/include/openssl/bn.h:664-665 | After bn_expand(a,bits) every magnitude below 2^bits fits, and the array is kept if and only if that was so before. |
| Bignum.Capacity | MailCore/iOSPorts/include/openssl/bn.h:664-665 | The rounded-up word count is the exact threshold for holding every magnitude below 2^bits. |
| Bignum.NumBytesLeast | MailCore/iOSPorts/include/openssl/bn.h:384 | BN_num_bytes is the least k with |a| < 256^k. |
| Bignum.MaskIsLargest | MailCore/iOSPorts/include/openssl/bn.h:184-187 | BN_MASK2 is the largest word: 32 or 64 one bits. |
| Bignum.FilledBytes | MailCore/iOSPorts/include/openssl/bn.h:711-724 | A polluted word has the same byte at every place. |
| Montgomery.ExactDivision | MailCore/iOSPorts/include/openssl/bn.h:311-321 | From R*(1/R mod N) - N*Ni = 1: the number the reduction divides by R is a multiple of R. |
| Montgomery.RBits | MailCore/iOSPorts/include/openssl/bn.h:311-318 | R is a one followed by ri zero bits. |
| Montgomery.ReduceCorrect | MailCore/iOSPorts/include/openssl/bn.h:311-321 | For T below N*R one subtraction suffices, the result is below N, and R times it is T modulo N. |
| Montgomery.ToMontIs | MailCore/iOSPorts/include/openssl/bn.h:545-548 | BN_to_montgomery(a) is a*R mod N for every a below R. |
| Montgomery.FromToMont | MailCore/iOSPorts/include/openssl/bn.h:547-550 | BN_from_montgomery after BN_to_montgomery gives a mod N, hence a if and only if a < N. |
| Montgomery.MulMontIs | MailCore/iOSPorts/include/openssl/bn.h:545-546 | The Montgomery product of two converted numbers is the converted product modulo N. |
| Decimal.PrintIsDec | MailCore/iOSPorts/include/openssl/bn.h:192-195 | Chunks in base BN_DEC_CONV, the leading one printed with FMT1 and the others with FMT2, give the canonical decimal numeral, for both word sizes. |
| Decimal.DecSplit | MailCore/iOSPorts/include/openssl/bn.h:192-195 | Printing the part above k digits and then exactly k digits prints the number. |
| Decimal.Bn2Dec | MailCore/iOSPorts/include/openssl/bn.h:219-222 | The split and print loops compute the canonical numeral of every number. |
| Decimal.Dec2Bn | MailCore/iOSPorts/include/openssl/bn.h:247-251 | Gathering digits into words, aligned so that only the first chunk is short, computes the number the text denotes. |
| Decimal.NumberOfDec | MailCore/iOSPorts/include/openssl/bn.h:192-195 | The canonical numeral of a number denotes that number, so reading undoes printing. |
| Decimal.DigitOfDec | MailCore/iOSPorts/include/openssl/bn.h:192-195 | The i-th digit of a numeral is the digit of the number at that power of ten, the most significant first. |
| Decimal.DecNumLargest | MailCore/iOSPorts/include/openssl/bn.h:192-195 | BN_DEC_NUM is the largest k with 10^k not above the number of words. |
| Decimal.ChunkFits | MailCore/iOSPorts/include/openssl/bn.h:192-195 | Every number of BN_DEC_NUM digits fits one word. |
| EvpBase64.EncodeParts | MailCore/iOSPorts/include/openssl/evp.h:389-400 | Over every split of the input into updates the text is that of the whole input, fits EVP_ENCODE_LENGTH with its NUL, and decodes to the input. |
| EvpBase64.TextFits | MailCore/iOSPorts/include/openssl/evp.h:466 | The exact size of the text, and that it fits EVP_ENCODE_LENGTH together with the final NUL. |
| EvpBase64.UpdateFits | MailCore/iOSPorts/include/openssl/evp.h:466 | With up to 47 octets pending, the output of one update on l octets fits EVP_ENCODE_LENGTH(l) together with a NUL. |
| EvpDecode.StepFits | MailCore/iOSPorts/include/openssl/evp.h:467 | With up to 63 characters pending, a decode update on l characters writes at most EVP_DECODE_LENGTH(l) octets, also when it refuses: whatever part of the full lines can be decoded fits. |
| EvpDecode.DecodeCtx.Update | MailCore/iOSPorts/include/openssl/evp.h:599-600 | An update decodes the full lines of pending and new characters, keeps the rest, refuses anything behind padding, and stays within EVP_DECODE_LENGTH of the new characters even when it refuses. |
| EvpDecode.DecodeJoin | MailCore/iOSPorts/include/openssl/evp.h:603 | Text behind whole groups of four decodes by itself, and is refused behind padding. |
| EvpDecode.DecodeParts | MailCore/iOSPorts/include/openssl/evp.h:598-602 | Over every split of a text into updates, what is decoded and whether the text is refused are those of the whole text. |
| EvpBase64.Resume | MailCore/iOSPorts/include/openssl/evp.h:389-400 | Encoding with octets left over from an earlier update continues as if there had been one update. |
| EvpBase64.TextRoundTrip | MailCore/iOSPorts/include/openssl/evp.h:592-603 | Decoding the lines of a text gives back the encoded octets. |
| EvpAlphabet.SymbolIsTable | MailCore/iOSPorts/include/openssl/evp.h:596 | The characters written are those of the table of RFC 4648. |
| EvpAlphabet.SextetIsTable | MailCore/iOSPorts/include/openssl/evp.h:603 | The characters read are those of the table and no others. |
| EvpAlphabet.BlockIsNumber | MailCore/iOSPorts/include/openssl/evp.h:596 | The table indices of a block, read in base 64, are its octets, read in base 256 and filled up with zeros; the padding stands at the end and counts the zeros. |
| EvpAlphabet.DecodedIsNumber | MailCore/iOSPorts/include/openssl/evp.h:603 | A text is decoded exactly when it is made of whole groups of table characters with at most two padding characters at the end, and gives the octets of its number. |
| EvpAlphabet.LineEnds | MailCore/iOSPorts/include/openssl/evp.h:593-595 | Line ends stand behind every 64 characters and at the end, and nowhere else. |
| EvpAlphabet.SpareRoom | MailCore/iOSPorts/include/openssl/evp.h:466 | What EVP_ENCODE_LENGTH reserves beyond the text and its NUL, exactly. |
| EvpAlphabet.SpareDecodeRoom | MailCore/iOSPorts/include/openssl/evp.h:467 | EVP_DECODE_LENGTH of a text that decodes is its octets, its padding and 80 to spare. |
| EvpBase64.EncodeCtx.Update | MailCore/iOSPorts/include/openssl/evp.h:593-594 | An update writes the full lines of pending and new octets, keeps the rest pending, and with its NUL fits EVP_ENCODE_LENGTH of the new octets. |
| EvpBase64.EncodeCtx.Final | MailCore/iOSPorts/include/openssl/evp.h:595 | Final writes the last, padded line, if any, and leaves nothing pending. |

## Left out

- Tag numbers of 31 and above: the one-octet tag rewriting does not address them.
- Encodings longer than a C `int` (`INT_MAX`): the round trip and the framing are stated up to it, and a schema so large that its smallest counterexample exceeds it is not covered by the second half of `Asn1Distinct.RoundTripsExactly` and of `Asn1Strict.StrictExactly`.
- The failing allocation in `M_ASN1_D2I_vars`, the `M_ASN1_New*` macros, and the contents of the error queue beyond code and offset.
- In-place update of nested objects: a nested structure is a value here, so aliasing between members and the moment at which a nested member changes are not captured; the outermost object is a heap object.
- `M_ASN1_D2I_begin` with `M_ASN1_D2I_Finish_nolen` (no header and no length check), `M_ASN1_D2I_get_set_strings`, and the `get_x`, `get_int` and `_type` spellings, which have the same steps as the macros modelled.
- The Montgomery word `n0` and the word-level multiplication routines.
- `BN_with_flags`, `BN_set_flags` and the `flags` member.
- C `int` overflow of `bits+BN_BITS2-1` in `bn_expand` and of the `EVP_*_LENGTH` macros.
- The `length` and `line_num` members of `EVP_ENCODE_CTX` while decoding: lines shorter or longer than 64 characters are decoded 64 characters at a time.
- Hexadecimal conversion, ciphers, digests, and the Objective-C, SQLite and JSON headers of the repository: declarations only.
