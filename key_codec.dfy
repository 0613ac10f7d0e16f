/** The client's normalisation of keys and values (app.py, `to_bytes` and
    `to_string`). A value is a three-way union: Python's `None`, a `str`
    (a sequence of code points) or a `bytes` object. */
module KeyCodec {
  import opened Wrappers
  import opened ByteOrder
  import opened Utf8

  datatype Value = Absent | Text(chars: seq<CodePoint>) | Bytes(bytes: seq<byte>)

  /** The exceptions the strict UTF-8 codec raises. */
  datatype CodecError = UnicodeEncodeError | UnicodeDecodeError

  /** Text is sent as bytes: absence and bytes pass through, text is encoded
      as UTF-8 and fails only when it holds a surrogate. */
  function ToBytes(x: Value): (r: Result<Value, CodecError>)
    ensures x.Absent? ==> r == Success(Absent)
    ensures x.Bytes? ==> r == Success(x)
    ensures r.Success? ==> !r.value.Text? && (r.value.Absent? <==> x.Absent?)
    ensures r.Failure? <==> x.Text? && exists k :: 0 <= k < |x.chars| && !IsScalar(x.chars[k])
    ensures r.Failure? ==> r.error == UnicodeEncodeError
  {
    match x
    case Absent => Success(Absent)
    case Bytes(_) => Success(x)
    case Text(t) =>
      match Encode(t)
      case Some(b) => Success(Bytes(b))
      case None => Failure(UnicodeEncodeError)
  }

  /** Bytes are shown as text: absence and text pass through, bytes are
      decoded as UTF-8 and fail when they are not well-formed. */
  function ToString(x: Value): (r: Result<Value, CodecError>)
    ensures x.Absent? ==> r == Success(Absent)
    ensures x.Text? ==> r == Success(x)
    ensures r.Success? ==> !r.value.Bytes? && (r.value.Absent? <==> x.Absent?)
    ensures r.Failure? ==> x.Bytes? && r.error == UnicodeDecodeError
    ensures x.Bytes? && r.Success? ==> forall k :: 0 <= k < |r.value.chars| ==> IsScalar(r.value.chars[k])
  {
    match x
    case Absent => Success(Absent)
    case Text(_) => Success(x)
    case Bytes(b) =>
      match Decode(b)
      case Some(t) => Success(Text(t))
      case None => Failure(UnicodeDecodeError)
  }

  /** Normalising twice is normalising once. */
  lemma ToBytesIdempotent(x: Value)
    requires ToBytes(x).Success?
    ensures ToBytes(ToBytes(x).value) == ToBytes(x)
  {
  }

  /** Text survives the trip to bytes and back. */
  lemma ToStringOfToBytes(s: seq<CodePoint>)
    requires ToBytes(Text(s)).Success?
    ensures ToString(ToBytes(Text(s)).value) == Success(Text(s))
  {
    DecodeEncode(s);
  }

  /** Bytes that read as text are exactly that text's encoding. */
  lemma ToBytesOfToString(b: seq<byte>)
    requires ToString(Bytes(b)).Success?
    ensures ToBytes(ToString(Bytes(b)).value) == Success(Bytes(b))
  {
    EncodeDecode(b);
  }

  /** No byte of encoded text is 0xFF. */
  lemma EncodedTextHasNoMaxByte(s: seq<CodePoint>)
    requires ToBytes(Text(s)).Success?
    ensures forall k :: 0 <= k < |ToBytes(Text(s)).value.bytes| ==> ToBytes(Text(s)).value.bytes[k] < MaxByte
  {
  }
}
