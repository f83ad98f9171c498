/** Typed payloads of data records: `read_string` and `parse_value`. */
module Values {
  import opened Results
  import opened Bytes

  /** `bytes.decode('utf-8')`: the decoding itself is not modelled; it is any
      function that may fail (UnicodeDecodeError in the source). */
  type Utf8Decoder = seq<Byte> -> Option<string>

  /** A decoded scalar. `float` and `double` payloads are kept as their raw
      4- and 8-byte groups. */
  datatype Scalar =
    | Bool(b: bool)
    | Int(i: int)
    | Float(bits: seq<Byte>)
    | Double(bits: seq<Byte>)
    | Str(s: string)

  /** A decoded payload: one scalar, or the Python list an array type yields. */
  datatype Value = Single(x: Scalar) | List(xs: seq<Scalar>)

  datatype Elem = BooleanType | IntType | FloatType | DoubleType | StringType

  /** A type name of the log: a scalar type or its `[]` array form. */
  datatype ValueType = Plain(elem: Elem) | ArrayOf(elem: Elem)

  /** Why decoding a payload raised. */
  datatype DecodeError =
    | Truncated              // struct.error / IndexError: too few bytes left
    | BadUtf8                // UnicodeDecodeError
    | UnknownType(name: string)
    | Malformed(text: string) // metadata payload without ';' or with a non-integer id

  function ElemName(e: Elem): string {
    match e
    case BooleanType => "boolean"
    case IntType => "int"
    case FloatType => "float"
    case DoubleType => "double"
    case StringType => "string"
  }

  function TypeName(t: ValueType): string {
    match t
    case Plain(e) => ElemName(e)
    case ArrayOf(e) => ElemName(e) + "[]"
  }

  /** The branch of `parse_value` a type name selects; None for a name it rejects. */
  function TypeOf(name: string): (r: Option<ValueType>)
    ensures r.Some? ==> TypeName(r.value) == name
  {
    if name == "boolean" then Some(Plain(BooleanType))
    else if name == "int" then Some(Plain(IntType))
    else if name == "float" then Some(Plain(FloatType))
    else if name == "double" then Some(Plain(DoubleType))
    else if name == "string" then Some(Plain(StringType))
    else if name == "boolean[]" then Some(ArrayOf(BooleanType))
    else if name == "int[]" then Some(ArrayOf(IntType))
    else if name == "float[]" then Some(ArrayOf(FloatType))
    else if name == "double[]" then Some(ArrayOf(DoubleType))
    else if name == "string[]" then Some(ArrayOf(StringType))
    else None
  }

  /** Every type has exactly one name, so TypeOf rejects precisely the names of no type. */
  lemma TypeOfName(t: ValueType)
    ensures TypeOf(TypeName(t)) == Some(t)
  {
    match t {
      case Plain(e) =>
      case ArrayOf(e) =>
        match e {
          case BooleanType => assert TypeName(t) == "boolean[]";
          case IntType => assert TypeName(t) == "int[]";
          case FloatType => assert TypeName(t) == "float[]";
          case DoubleType => assert TypeName(t) == "double[]";
          case StringType => assert TypeName(t) == "string[]";
        }
    }
  }

  /** Bytes per element of a fixed-width type (`?`, `<q`, `<f`, `<d`). */
  function Width(e: Elem): (w: nat)
    requires e != StringType
    ensures w == 1 || w == 4 || w == 8
  {
    match e
    case BooleanType => 1
    case IntType => 8
    case FloatType => 4
    case DoubleType => 8
  }

  /** The fixed-width scalar whose bytes start at `o`. */
  function ScalarAt(data: seq<Byte>, o: nat, e: Elem): (x: Scalar)
    requires e != StringType && o + Width(e) <= |data|
  {
    match e
    case BooleanType => Bool(data[o] != 0)
    case IntType => Int(I64At(data, o))
    case FloatType => Float(data[o..o + 4])
    case DoubleType => Double(data[o..o + 8])
  }

  /** Where the Python slice `data[start:start + length]` ends: at the end of
      the buffer when the slice would run past it. */
  function SliceEnd(data: seq<Byte>, start: nat, length: nat): (stop: nat)
    ensures stop <= |data| && stop <= start + length
    ensures stop == start + length || stop == |data|
  {
    if start + length <= |data| then start + length else |data|
  }

  /** `read_string`: a u16 length, then that many bytes decoded as UTF-8.
      The slice of the text is cut at the end of the buffer, yet the offset
      returned always advances by the declared length. */
  function ReadString(data: seq<Byte>, o: nat, utf8: Utf8Decoder): (r: Result<(string, nat), DecodeError>)
    ensures r == Failure(Truncated) <==> o + 2 > |data|
    ensures r.Success? ==> o + 2 <= |data| && r.value.1 == o + 2 + U16At(data, o)
    // the bytes decoded are the declared ones, as far as the buffer holds them,
    // and the read succeeds exactly when the decoder accepts them
    ensures o + 2 <= |data| ==>
      var text := utf8(data[o + 2..SliceEnd(data, o + 2, U16At(data, o))]);
      && (r.Success? <==> text.Some?)
      && (r.Success? ==> r.value.0 == text.value)
  {
    if o + 2 > |data| then Failure(Truncated)
    else
      var length := U16At(data, o);
      var stop := SliceEnd(data, o + 2, length);
      match utf8(data[o + 2..stop])
      case None => Failure(BadUtf8)
      case Some(s) => Success((s, o + 2 + length))
  }

  /** A string whose declared length runs past the end of the buffer is still
      read: what is left of the buffer is decoded, and the offset moves past
      the end of the buffer by the declared length. */
  lemma ReadStringCutShort(data: seq<Byte>, o: nat, utf8: Utf8Decoder, s: string)
    requires o + 2 <= |data| < o + 2 + U16At(data, o)
    requires utf8(data[o + 2..]) == Some(s)
    ensures ReadString(data, o, utf8) == Success((s, o + 2 + U16At(data, o)))
    ensures o + 2 + U16At(data, o) > |data|
  {
    assert data[o + 2..SliceEnd(data, o + 2, U16At(data, o))] == data[o + 2..];
  }

  /** Where `n` length-prefixed strings from `p` end, judged by their length
      prefixes alone: each takes 2 bytes plus its declared length. */
  function StringsEnd(data: seq<Byte>, p: nat, n: nat): (r: Option<nat>)
    ensures r.Some? ==> r.value >= p + 2 * n
    decreases n
  {
    if n == 0 then Some(p)
    else if p + 2 > |data| then None
    else StringsEnd(data, p + 2 + U16At(data, p), n - 1)
  }

  /** `n` strings read one after another from `p`. */
  function ReadStrings(data: seq<Byte>, p: nat, n: nat, utf8: Utf8Decoder): (r: Result<(seq<string>, nat), DecodeError>)
    ensures r.Success? ==> |r.value.0| == n && StringsEnd(data, p, n) == Some(r.value.1)
    ensures StringsEnd(data, p, n).None? ==> r.Failure?
    decreases n
  {
    if n == 0 then Success(([], p))
    else
      match ReadString(data, p, utf8)
      case Failure(e) => Failure(e)
      case Success((s, q)) =>
        match ReadStrings(data, q, n - 1, utf8)
        case Failure(e) => Failure(e)
        case Success((rest, q')) => Success(([s] + rest, q'))
  }

  /** Bytes taken by `n` elements of a fixed-width type, written with a
      literal factor per type so that the arithmetic stays linear. */
  function Span(e: Elem, n: nat): nat
    requires e != StringType
  {
    match e
    case BooleanType => n
    case IntType => 8 * n
    case FloatType => 4 * n
    case DoubleType => 8 * n
  }

  lemma SpanIsProduct(e: Elem, n: nat)
    requires e != StringType
    ensures Span(e, n) == n * Width(e)
  {
  }

  /** The `n` fixed-width elements laid out from `p`, in order. */
  function FixedElems(data: seq<Byte>, p: nat, e: Elem, n: nat): (xs: seq<Scalar>)
    requires e != StringType && p + Span(e, n) <= |data|
    ensures |xs| == n
  {
    seq(n, i requires 0 <= i < n => ScalarAt(data, p + Span(e, i), e))
  }

  /** The array branch of `parse_value` for a fixed-width element type. */
  function FixedArrayAt(data: seq<Byte>, o: nat, e: Elem): (r: Result<(Value, nat), DecodeError>)
    requires e != StringType
    // it succeeds exactly when the count and all the elements it declares lie in the buffer
    ensures r.Success? <==> o + 4 <= |data| && o + 4 + Span(e, U32At(data, o)) <= |data|
    ensures r.Success? ==>
      && r.value.1 == o + 4 + Span(e, U32At(data, o)) && r.value.0.List?
      && r.value.0.xs == FixedElems(data, o + 4, e, U32At(data, o))
  {
    if o + 4 > |data| then Failure(Truncated)
    else
      var n := U32At(data, o);
      if o + 4 + Span(e, n) > |data| then Failure(Truncated)
      else Success((List(FixedElems(data, o + 4, e, n)), o + 4 + Span(e, n)))
  }

  /** The `string[]` branch of `parse_value`. */
  function StringArrayAt(data: seq<Byte>, o: nat, utf8: Utf8Decoder): (r: Result<(Value, nat), DecodeError>)
    // it fails when the count or any declared string length runs out of the buffer,
    // and on success ends exactly where the declared strings end
    ensures o + 4 > |data| ==> r == Failure(Truncated)
    ensures o + 4 <= |data| && StringsEnd(data, o + 4, U32At(data, o)).None? ==> r.Failure?
    ensures r.Success? ==>
      && o + 4 <= |data| && r.value.0.List? && |r.value.0.xs| == U32At(data, o)
      && StringsEnd(data, o + 4, U32At(data, o)) == Some(r.value.1)
  {
    if o + 4 > |data| then Failure(Truncated)
    else
      match ReadStrings(data, o + 4, U32At(data, o), utf8)
      case Failure(e) => Failure(e)
      case Success((ss, q)) => Success((List(Strs(ss)), q))
  }

  function Strs(ss: seq<string>): (xs: seq<Scalar>)
    ensures |xs| == |ss| && forall i :: 0 <= i < |ss| ==> xs[i] == Str(ss[i])
  {
    seq(|ss|, i requires 0 <= i < |ss| => Str(ss[i]))
  }

  /** `parse_value`: the payload of type `typeName` at `o`, and the offset after it. */
  function DecodeValue(data: seq<Byte>, o: nat, typeName: string, utf8: Utf8Decoder): (r: Result<(Value, nat), DecodeError>)
    ensures TypeOf(typeName).None? ==> r == Failure(UnknownType(typeName))
    ensures r.Success? ==> o < r.value.1 && match TypeOf(typeName)
      case Some(Plain(StringType)) => r.value.0.Single? && o + 2 <= |data| && r.value.1 == o + 2 + U16At(data, o)
      case Some(Plain(e)) => r.value.0.Single? && r.value.1 == o + Width(e)
      case Some(ArrayOf(StringType)) =>
        && r.value.0.List? && o + 4 <= |data| && |r.value.0.xs| == U32At(data, o)
        && StringsEnd(data, o + 4, U32At(data, o)) == Some(r.value.1)
      case Some(ArrayOf(e)) =>
        && r.value.0.List? && o + 4 <= |data| && |r.value.0.xs| == U32At(data, o)
        && r.value.1 == o + 4 + Span(e, U32At(data, o))
      case None => false
    // a fixed-width scalar or array decodes exactly when its bytes lie in the buffer
    ensures match TypeOf(typeName)
      case Some(Plain(e)) => e != StringType ==> (r.Success? <==> o + Width(e) <= |data|)
      case Some(ArrayOf(e)) =>
        e != StringType ==> (r.Success? <==> o + 4 <= |data| && o + 4 + Span(e, U32At(data, o)) <= |data|)
      case None => true
  {
    match TypeOf(typeName)
    case None => Failure(UnknownType(typeName))
    case Some(Plain(StringType)) =>
      (match ReadString(data, o, utf8)
       case Failure(err) => Failure(err)
       case Success((s, q)) => Success((Single(Str(s)), q)))
    case Some(Plain(e)) =>
      if o + Width(e) > |data| then Failure(Truncated)
      else Success((Single(ScalarAt(data, o, e)), o + Width(e)))
    case Some(ArrayOf(StringType)) => StringArrayAt(data, o, utf8)
    case Some(ArrayOf(e)) => FixedArrayAt(data, o, e)
  }

  /** The `for _ in range(length)` loop of a fixed-width array branch. */
  method ReadFixedArray(data: seq<Byte>, offset: nat, e: Elem) returns (r: Result<(Value, nat), DecodeError>)
    requires e != StringType
    ensures r == FixedArrayAt(data, offset, e)
  {
    if offset + 4 > |data| {
      return Failure(Truncated);
    }
    var length := U32At(data, offset);
    var o := offset + 4;
    var value: seq<Scalar> := [];
    var i := 0;
    while i < length
      invariant i <= length && o == offset + 4 + Span(e, i) <= |data|
      invariant value == FixedElems(data, offset + 4, e, i)
    {
      if o + Width(e) > |data| {
        return Failure(Truncated);
      }
      value := value + [ScalarAt(data, o, e)];
      assert value == FixedElems(data, offset + 4, e, i + 1);
      o := o + Width(e);
      i := i + 1;
    }
    return Success((List(value), o));
  }

  function Prepend(prefix: seq<string>, r: Result<(seq<string>, nat), DecodeError>): Result<(seq<string>, nat), DecodeError> {
    match r
    case Failure(e) => Failure(e)
    case Success((xs, q)) => Success((prefix + xs, q))
  }

  lemma PrependStep(value: seq<string>, data: seq<Byte>, o: nat, n: nat, utf8: Utf8Decoder)
    requires n > 0 && ReadString(data, o, utf8).Success?
    ensures var (s, q) := ReadString(data, o, utf8).value;
      Prepend(value, ReadStrings(data, o, n, utf8)) == Prepend(value + [s], ReadStrings(data, q, n - 1, utf8))
  {
    var (s, q) := ReadString(data, o, utf8).value;
    match ReadStrings(data, q, n - 1, utf8) {
      case Failure(_) =>
      case Success((rest, _)) => assert value + ([s] + rest) == (value + [s]) + rest;
    }
  }

  /** The `for _ in range(length)` loop of the `string[]` branch. */
  method ReadStringArray(data: seq<Byte>, offset: nat, utf8: Utf8Decoder) returns (r: Result<(Value, nat), DecodeError>)
    ensures r == StringArrayAt(data, offset, utf8)
  {
    if offset + 4 > |data| {
      return Failure(Truncated);
    }
    var length := U32At(data, offset);
    var o: nat := offset + 4;
    var value: seq<string> := [];
    var i: nat := 0;
    match ReadStrings(data, o, length, utf8) {
      case Failure(_) =>
      case Success((xs, _)) => assert [] + xs == xs;
    }
    while i < length
      invariant i <= length
      invariant Prepend(value, ReadStrings(data, o, length - i, utf8)) == ReadStrings(data, offset + 4, length, utf8)
      decreases length - i
    {
      var s := ReadString(data, o, utf8);
      if s.Failure? {
        return Failure(s.error);
      }
      PrependStep(value, data, o, length - i, utf8);
      value := value + [s.value.0];
      o := s.value.1;
      i := i + 1;
    }
    assert value + [] == value;
    return Success((List(Strs(value)), o));
  }

  /** `parse_value`, branch by branch as the source tests the type name. */
  method ParseValue(data: seq<Byte>, offset: nat, entryType: string, utf8: Utf8Decoder) returns (r: Result<(Value, nat), DecodeError>)
    ensures r == DecodeValue(data, offset, entryType, utf8)
  {
    if entryType == "boolean" {
      if offset + 1 > |data| { return Failure(Truncated); }
      r := Success((Single(Bool(data[offset] != 0)), offset + 1));
    } else if entryType == "int" {
      if offset + 8 > |data| { return Failure(Truncated); }
      r := Success((Single(Int(I64At(data, offset))), offset + 8));
    } else if entryType == "float" {
      if offset + 4 > |data| { return Failure(Truncated); }
      r := Success((Single(Float(data[offset..offset + 4])), offset + 4));
    } else if entryType == "double" {
      if offset + 8 > |data| { return Failure(Truncated); }
      r := Success((Single(Double(data[offset..offset + 8])), offset + 8));
    } else if entryType == "string" {
      var s := ReadString(data, offset, utf8);
      if s.Failure? { return Failure(s.error); }
      r := Success((Single(Str(s.value.0)), s.value.1));
    } else if entryType == "boolean[]" {
      r := ReadFixedArray(data, offset, BooleanType);
    } else if entryType == "int[]" {
      r := ReadFixedArray(data, offset, IntType);
    } else if entryType == "float[]" {
      r := ReadFixedArray(data, offset, FloatType);
    } else if entryType == "double[]" {
      r := ReadFixedArray(data, offset, DoubleType);
    } else if entryType == "string[]" {
      r := ReadStringArray(data, offset, utf8);
    } else {
      r := Failure(UnknownType(entryType));
    }
  }
}
