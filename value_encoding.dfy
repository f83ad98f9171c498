/** The writer's side of the payload format, used to state what
    `parse_value` recovers: decoding the bytes of an encoded value gives the
    value back and stops exactly at its last byte. */
module ValueEncoding {
  import opened Results
  import opened Bytes
  import opened Values

  /** A UTF-8 encoder, paired with a decoder by `Encodable`. */
  type Utf8Encoder = string -> seq<Byte>

  /** `s` encodes to at most 65535 bytes that the decoder reads back as `s`. */
  predicate Encodable(s: string, enc: Utf8Encoder, utf8: Utf8Decoder) {
    |enc(s)| < 0x1_0000 && utf8(enc(s)) == Some(s)
  }

  /** A scalar that an element of type `e` can hold and the format can store. */
  predicate ScalarFits(x: Scalar, e: Elem, enc: Utf8Encoder, utf8: Utf8Decoder) {
    if e == StringType then x.Str? && Encodable(x.s, enc, utf8) else FixedFits(x, e)
  }

  /** A scalar that a fixed-width element of type `e` can hold. */
  predicate FixedFits(x: Scalar, e: Elem) {
    match e
    case BooleanType => x.Bool?
    case IntType => x.Int? && -TWO_63 <= x.i < TWO_63
    case FloatType => x.Float? && |x.bits| == 4
    case DoubleType => x.Double? && |x.bits| == 8
    case StringType => false
  }

  predicate Fits(v: Value, t: ValueType, enc: Utf8Encoder, utf8: Utf8Decoder) {
    match t
    case Plain(e) => v.Single? && ScalarFits(v.x, e, enc, utf8)
    case ArrayOf(e) =>
      && v.List? && |v.xs| < 0x1_0000_0000
      && forall i :: 0 <= i < |v.xs| ==> ScalarFits(v.xs[i], e, enc, utf8)
  }

  /** A length-prefixed string as `read_string` expects it. */
  function EncodeString(bs: seq<Byte>): (out: seq<Byte>)
    requires |bs| < 0x1_0000
    ensures |out| == 2 + |bs|
  {
    ToLittleEndian(|bs|, 2) + bs
  }

  /** The bytes of a fixed-width scalar: one byte for a boolean, the 64-bit
      two's-complement pattern for an integer, the stored bits for a float or double. */
  function EncodeFixed(x: Scalar, e: Elem): (out: seq<Byte>)
    requires FixedFits(x, e)
    ensures |out| == Width(e)
  {
    match e
    case BooleanType => [if x.b then 1 else 0]
    case IntType => ToLittleEndian(Unsigned64(x.i), 8)
    case FloatType => x.bits
    case DoubleType => x.bits
  }

  /** Byte groups laid end to end. */
  function Concat(cs: seq<seq<Byte>>): (out: seq<Byte>)
  {
    if |cs| == 0 then [] else cs[0] + Concat(cs[1..])
  }

  /** The body of a fixed-width array: its elements' encodings end to end. */
  function EncodeFixeds(xs: seq<Scalar>, e: Elem): (out: seq<Byte>)
    requires forall i :: 0 <= i < |xs| ==> FixedFits(xs[i], e)
    ensures e != StringType ==> |out| == Span(e, |xs|)
  {
    var chunks := seq(|xs|, i requires 0 <= i < |xs| && FixedFits(xs[i], e) => EncodeFixed(xs[i], e));
    if e == StringType then Concat(chunks)
    else
      ConcatLength(chunks, Width(e));
      SpanIsProduct(e, |xs|);
      Concat(chunks)
  }

  function EncodeScalar(x: Scalar, e: Elem, enc: Utf8Encoder, utf8: Utf8Decoder): seq<Byte>
    requires ScalarFits(x, e, enc, utf8)
  {
    if e == StringType then EncodeString(enc(x.s)) else EncodeFixed(x, e)
  }

  function EncodeValue(v: Value, t: ValueType, enc: Utf8Encoder, utf8: Utf8Decoder): seq<Byte>
    requires Fits(v, t, enc, utf8)
  {
    match t
    case Plain(e) => EncodeScalar(v.x, e, enc, utf8)
    case ArrayOf(StringType) => ToLittleEndian(|v.xs|, 4) + EncodeStrings(Texts(v.xs), enc, utf8)
    case ArrayOf(e) => ToLittleEndian(|v.xs|, 4) + EncodeFixeds(v.xs, e)
  }

  /** `data` holds `bytes` from offset `o` on. */
  predicate At(data: seq<Byte>, o: nat, bytes: seq<Byte>) {
    o + |bytes| <= |data| && data[o..o + |bytes|] == bytes
  }

  lemma AtConcat(pre: seq<Byte>, bytes: seq<Byte>, post: seq<Byte>)
    ensures At(pre + bytes + post, |pre|, bytes)
  {
    assert (pre + bytes + post)[|pre|..|pre| + |bytes|] == bytes;
  }

  lemma AtSplit(data: seq<Byte>, o: nat, a: seq<Byte>, b: seq<Byte>)
    requires At(data, o, a + b)
    ensures At(data, o, a) && At(data, o + |a|, b)
  {
    assert data[o..o + |a|] == data[o..o + |a + b|][..|a|];
    assert data[o + |a|..o + |a| + |b|] == data[o..o + |a + b|][|a|..];
  }

  lemma LittleEndianAt(data: seq<Byte>, o: nat, n: nat, width: nat)
    requires n < Pow256(width) && At(data, o, ToLittleEndian(n, width))
    ensures LittleEndian(data[o..o + width]) == n
  {
    LittleEndianOfBytes(n, width);
  }

  /** `read_string` reads back an encoded string and ends right after it. */
  lemma ReadEncodedString(data: seq<Byte>, o: nat, s: string, enc: Utf8Encoder, utf8: Utf8Decoder)
    requires Encodable(s, enc, utf8) && At(data, o, EncodeString(enc(s)))
    ensures ReadString(data, o, utf8) == Success((s, o + 2 + |enc(s)|))
  {
    var bs := enc(s);
    AtSplit(data, o, ToLittleEndian(|bs|, 2), bs);
    assert Pow256(2) == 0x1_0000;
    LittleEndianAt(data, o, |bs|, 2);
  }

  /** A fixed-width scalar reads back from its encoding. */
  lemma ReadEncodedScalar(data: seq<Byte>, o: nat, x: Scalar, e: Elem)
    requires FixedFits(x, e) && At(data, o, EncodeFixed(x, e))
    ensures o + Width(e) <= |data| && ScalarAt(data, o, e) == x
  {
    match e
    case BooleanType =>
    case IntType =>
      Pow256Of8();
      LittleEndianAt(data, o, Unsigned64(x.i), 8);
    case FloatType =>
    case DoubleType =>
  }

  lemma {:induction false} ConcatAppend(cs: seq<seq<Byte>>, ds: seq<seq<Byte>>)
    ensures Concat(cs + ds) == Concat(cs) + Concat(ds)
    decreases |cs|
  {
    if |cs| == 0 {
      assert cs + ds == ds;
    } else {
      assert (cs + ds)[1..] == cs[1..] + ds;
      ConcatAppend(cs[1..], ds);
    }
  }

  /** Groups of one width `w` take `w` bytes each. */
  lemma {:induction false} ConcatLength(cs: seq<seq<Byte>>, w: nat)
    requires forall k :: 0 <= k < |cs| ==> |cs[k]| == w
    ensures |Concat(cs)| == |cs| * w
    decreases |cs|
  {
    if |cs| > 0 {
      ConcatLength(cs[1..], w);
    }
  }

  /** The `i`-th group sits after the groups before it. */
  lemma ChunkAt(data: seq<Byte>, o: nat, cs: seq<seq<Byte>>, i: nat)
    requires i < |cs| && At(data, o, Concat(cs))
    ensures At(data, o + |Concat(cs[..i])|, cs[i])
  {
    assert cs == cs[..i] + cs[i..];
    ConcatAppend(cs[..i], cs[i..]);
    AtSplit(data, o, Concat(cs[..i]), Concat(cs[i..]));
    assert Concat(cs[i..]) == cs[i] + Concat(cs[i + 1..]);
    AtSplit(data, o + |Concat(cs[..i])|, cs[i], Concat(cs[i + 1..]));
  }

  /** The `i`-th group of an encoded fixed-width array is the encoding of its
      `i`-th element, at offset `Span(e, i)`. */
  lemma EncodedElemAt(data: seq<Byte>, o: nat, xs: seq<Scalar>, e: Elem, i: nat)
    requires e != StringType && i < |xs| && forall k :: 0 <= k < |xs| ==> FixedFits(xs[k], e)
    requires At(data, o, EncodeFixeds(xs, e))
    ensures At(data, o + Span(e, i), EncodeFixed(xs[i], e))
  {
    var chunks := seq(|xs|, k requires 0 <= k < |xs| && FixedFits(xs[k], e) => EncodeFixed(xs[k], e));
    assert EncodeFixeds(xs, e) == Concat(chunks);
    ChunkAt(data, o, chunks, i);
    ConcatLength(chunks[..i], Width(e));
    SpanIsProduct(e, i);
  }

  lemma FixedElemAt(data: seq<Byte>, p: nat, e: Elem, n: nat, i: nat)
    requires e != StringType && p + Span(e, n) <= |data| && i < n
    ensures p + Span(e, i) + Width(e) <= |data|
    ensures FixedElems(data, p, e, n)[i] == ScalarAt(data, p + Span(e, i), e)
  {
  }

  /** `FixedElems` reads the `i`-th element of an encoded fixed-width array back. */
  lemma ReadEncodedElem(data: seq<Byte>, o: nat, xs: seq<Scalar>, e: Elem, i: nat)
    requires e != StringType && i < |xs| && forall k :: 0 <= k < |xs| ==> FixedFits(xs[k], e)
    requires At(data, o, EncodeFixeds(xs, e))
    ensures o + Span(e, |xs|) <= |data| && FixedElems(data, o, e, |xs|)[i] == xs[i]
  {
    EncodedElemAt(data, o, xs, e, i);
    ReadEncodedScalar(data, o + Span(e, i), xs[i], e);
    FixedElemAt(data, o, e, |xs|, i);
  }

  /** The elements `FixedElems` reads from an encoded fixed-width array are the array's. */
  lemma FixedElemsOfEncoding(data: seq<Byte>, o: nat, xs: seq<Scalar>, e: Elem)
    requires e != StringType && forall k :: 0 <= k < |xs| ==> FixedFits(xs[k], e)
    requires At(data, o, EncodeFixeds(xs, e))
    ensures o + Span(e, |xs|) <= |data| && FixedElems(data, o, e, |xs|) == xs
  {
    var elems := FixedElems(data, o, e, |xs|);
    forall i | 0 <= i < |xs|
      ensures elems[i] == xs[i]
    {
      ReadEncodedElem(data, o, xs, e, i);
    }
  }

  /** The texts of a sequence of string scalars. */
  function Texts(xs: seq<Scalar>): (ss: seq<string>)
    requires forall k :: 0 <= k < |xs| ==> xs[k].Str?
    ensures |ss| == |xs| && forall k :: 0 <= k < |xs| ==> Str(ss[k]) == xs[k]
  {
    if |xs| == 0 then [] else [xs[0].s] + Texts(xs[1..])
  }

  /** Length-prefixed strings one after another, as a `string[]` body holds them. */
  function EncodeStrings(ss: seq<string>, enc: Utf8Encoder, utf8: Utf8Decoder): seq<Byte>
    requires forall k :: 0 <= k < |ss| ==> Encodable(ss[k], enc, utf8)
  {
    if |ss| == 0 then []
    else
      assert Encodable(ss[0], enc, utf8);
      EncodeString(enc(ss[0])) + EncodeStrings(ss[1..], enc, utf8)
  }

  lemma ReadStringsCons(data: seq<Byte>, p: nat, n: nat, utf8: Utf8Decoder, s: string, q: nat, rest: seq<string>, q': nat)
    requires n > 0 && ReadString(data, p, utf8) == Success((s, q))
    requires ReadStrings(data, q, n - 1, utf8) == Success((rest, q'))
    ensures ReadStrings(data, p, n, utf8) == Success(([s] + rest, q'))
  {
  }

  /** The strings of an encoded `string[]` body read back one after another. */
  lemma {:induction false} ReadEncodedStrings(data: seq<Byte>, o: nat, ss: seq<string>, enc: Utf8Encoder, utf8: Utf8Decoder)
    requires forall k :: 0 <= k < |ss| ==> Encodable(ss[k], enc, utf8)
    requires At(data, o, EncodeStrings(ss, enc, utf8))
    ensures ReadStrings(data, o, |ss|, utf8) == Success((ss, o + |EncodeStrings(ss, enc, utf8)|))
    decreases |ss|
  {
    if |ss| > 0 {
      var head := EncodeString(enc(ss[0]));
      var tail := EncodeStrings(ss[1..], enc, utf8);
      var q := o + |head|;
      AtSplit(data, o, head, tail);
      ReadEncodedString(data, o, ss[0], enc, utf8);
      ReadEncodedStrings(data, q, ss[1..], enc, utf8);
      ReadStringsCons(data, o, |ss|, utf8, ss[0], q, ss[1..], q + |tail|);
      assert [ss[0]] + ss[1..] == ss;
    }
  }

  /** The element count of an encoded array reads back. */
  lemma ReadEncodedCount(data: seq<Byte>, o: nat, n: nat, body: seq<Byte>)
    requires n < 0x1_0000_0000 && At(data, o, ToLittleEndian(n, 4) + body)
    ensures o + 4 <= |data| && U32At(data, o) == n && At(data, o + 4, body)
  {
    AtSplit(data, o, ToLittleEndian(n, 4), body);
    assert Pow256(4) == 0x1_0000_0000;
    LittleEndianAt(data, o, n, 4);
  }

  lemma DecodeEncodedString(data: seq<Byte>, o: nat, v: Value, t: ValueType, enc: Utf8Encoder, utf8: Utf8Decoder)
    requires t == Plain(StringType) && Fits(v, t, enc, utf8) && At(data, o, EncodeValue(v, t, enc, utf8))
    ensures DecodeValue(data, o, TypeName(t), utf8) == Success((v, o + |EncodeValue(v, t, enc, utf8)|))
  {
    TypeOfName(t);
    ReadEncodedString(data, o, v.x.s, enc, utf8);
  }

  lemma DecodeEncodedFixed(data: seq<Byte>, o: nat, v: Value, t: ValueType, enc: Utf8Encoder, utf8: Utf8Decoder)
    requires t.Plain? && t.elem != StringType && Fits(v, t, enc, utf8) && At(data, o, EncodeValue(v, t, enc, utf8))
    ensures DecodeValue(data, o, TypeName(t), utf8) == Success((v, o + |EncodeValue(v, t, enc, utf8)|))
  {
    TypeOfName(t);
    ReadEncodedScalar(data, o, v.x, t.elem);
  }

  lemma DecodeEncodedStringArray(data: seq<Byte>, o: nat, v: Value, t: ValueType, enc: Utf8Encoder, utf8: Utf8Decoder)
    requires t == ArrayOf(StringType) && Fits(v, t, enc, utf8) && At(data, o, EncodeValue(v, t, enc, utf8))
    ensures DecodeValue(data, o, TypeName(t), utf8) == Success((v, o + |EncodeValue(v, t, enc, utf8)|))
  {
    TypeOfName(t);
    var ss := Texts(v.xs);
    var body := EncodeStrings(ss, enc, utf8);
    assert EncodeValue(v, t, enc, utf8) == ToLittleEndian(|v.xs|, 4) + body;
    ReadEncodedCount(data, o, |v.xs|, body);
    ReadEncodedStrings(data, o + 4, ss, enc, utf8);
    assert Strs(ss) == v.xs;
    assert StringArrayAt(data, o, utf8) == Success((v, o + 4 + |body|));
  }

  lemma DecodeEncodedFixedArray(data: seq<Byte>, o: nat, v: Value, t: ValueType, enc: Utf8Encoder, utf8: Utf8Decoder)
    requires t.ArrayOf? && t.elem != StringType && Fits(v, t, enc, utf8) && At(data, o, EncodeValue(v, t, enc, utf8))
    ensures DecodeValue(data, o, TypeName(t), utf8) == Success((v, o + |EncodeValue(v, t, enc, utf8)|))
  {
    TypeOfName(t);
    assert DecodeValue(data, o, TypeName(t), utf8) == FixedArrayAt(data, o, t.elem);
    ReadEncodedCount(data, o, |v.xs|, EncodeFixeds(v.xs, t.elem));
    FixedElemsOfEncoding(data, o + 4, v.xs, t.elem);
  }

  /** Decoding an encoded payload with its type's name gives the payload back
      and consumes exactly its encoding, for every type of the format. */
  lemma DecodeEncodedValue(data: seq<Byte>, o: nat, v: Value, t: ValueType, enc: Utf8Encoder, utf8: Utf8Decoder)
    requires Fits(v, t, enc, utf8) && At(data, o, EncodeValue(v, t, enc, utf8))
    ensures DecodeValue(data, o, TypeName(t), utf8) == Success((v, o + |EncodeValue(v, t, enc, utf8)|))
  {
    if t == Plain(StringType) {
      DecodeEncodedString(data, o, v, t, enc, utf8);
    } else if t.Plain? {
      DecodeEncodedFixed(data, o, v, t, enc, utf8);
    } else if t == ArrayOf(StringType) {
      DecodeEncodedStringArray(data, o, v, t, enc, utf8);
    } else {
      DecodeEncodedFixedArray(data, o, v, t, enc, utf8);
    }
  }

  /** The same, with the payload surrounded by any other bytes. */
  lemma DecodeEncodedValueIn(pre: seq<Byte>, v: Value, t: ValueType, post: seq<Byte>, enc: Utf8Encoder, utf8: Utf8Decoder)
    requires Fits(v, t, enc, utf8)
    ensures var bytes := EncodeValue(v, t, enc, utf8);
      DecodeValue(pre + bytes + post, |pre|, TypeName(t), utf8) == Success((v, |pre| + |bytes|))
  {
    AtConcat(pre, EncodeValue(v, t, enc, utf8), post);
    DecodeEncodedValue(pre + EncodeValue(v, t, enc, utf8) + post, |pre|, v, t, enc, utf8);
  }

}
