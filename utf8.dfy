/** UTF-8 as defined in RFC 3629: section 3 gives the bit layout of the
    one- to four-byte forms, section 4 the exact byte sequences a strict
    decoder accepts. Text is a sequence of code points 0..0x10FFFF, which may
    include surrogates: those have no UTF-8 form and fail to encode. */
module Utf8 {
  import opened Wrappers
  import opened ByteOrder

  type CodePoint = c: int | 0 <= c < 0x110000

  /** A Unicode scalar value: any code point outside the surrogate block. */
  predicate IsScalar(c: CodePoint) {
    c < 0xD800 || 0xDFFF < c
  }

  predicate IsContinuation(b: byte) {
    0x80 <= b < 0xC0
  }

  /** The six payload bits of a continuation byte. */
  function Tail(b: byte): int {
    b as int - 0x80
  }

  /** A byte that can occur somewhere in well-formed UTF-8: C0, C1 and F5..FF never do. */
  predicate MayOccur(b: byte) {
    b != 0xC0 && b != 0xC1 && b < 0xF5
  }

  /** Number of bytes in the UTF-8 form of a scalar value. */
  function EncodedLength(c: CodePoint): nat {
    if c < 0x80 then 1 else if c < 0x800 then 2 else if c < 0x10000 then 3 else 4
  }

  /** The UTF-8 form of one scalar value (RFC 3629, section 3). */
  function EncodeScalar(c: CodePoint): (r: seq<byte>)
    requires IsScalar(c)
    ensures |r| == EncodedLength(c)
    ensures forall k :: 0 <= k < |r| ==> MayOccur(r[k])
    ensures forall k :: 1 <= k < |r| ==> IsContinuation(r[k])
  {
    if c < 0x80 then [c]
    else if c < 0x800 then [0xC0 + c / 0x40, 0x80 + c % 0x40]
    else if c < 0x10000 then [0xE0 + c / 0x1000, 0x80 + c / 0x40 % 0x40, 0x80 + c % 0x40]
    else [0xF0 + c / 0x40000, 0x80 + c / 0x1000 % 0x40, 0x80 + c / 0x40 % 0x40, 0x80 + c % 0x40]
  }

  /** Strict encoding of a text: fails exactly when the text holds a surrogate. */
  function Encode(s: seq<CodePoint>): (r: Option<seq<byte>>)
    ensures r.Some? <==> forall k :: 0 <= k < |s| ==> IsScalar(s[k])
    ensures r.Some? ==> |s| <= |r.value| <= 4 * |s|
    ensures r.Some? ==> forall k :: 0 <= k < |r.value| ==> MayOccur(r.value[k])
  {
    if |s| == 0 then Some([])
    else if !IsScalar(s[0]) then None
    else
      match Encode(s[1..])
      case None => None
      case Some(t) => Some(EncodeScalar(s[0]) + t)
  }

  /** Decodes the first character of `b`: the code point and the number of
      bytes it takes, or None when `b` does not start with one of the byte
      sequences of RFC 3629, section 4 (overlong forms, surrogates, values
      above 0x10FFFF and truncated sequences are all refused). */
  function DecodeFirst(b: seq<byte>): (r: Option<(CodePoint, nat)>)
    requires |b| > 0
    ensures r.Some? ==> IsScalar(r.value.0) && r.value.1 == EncodedLength(r.value.0) <= |b|
  {
    var b0 := b[0] as int;
    if b0 < 0x80 then Some((b0, 1))
    else if 0xC2 <= b0 <= 0xDF then
      if |b| >= 2 && IsContinuation(b[1])
      then Some(((b0 - 0xC0) * 0x40 + Tail(b[1]), 2))
      else None
    else if 0xE0 <= b0 <= 0xEF then
      var lo := if b0 == 0xE0 then 0xA0 else 0x80;
      var hi := if b0 == 0xED then 0x9F else 0xBF;
      if |b| >= 3 && lo <= b[1] <= hi && IsContinuation(b[2])
      then Some(((b0 - 0xE0) * 0x1000 + Tail(b[1]) * 0x40 + Tail(b[2]), 3))
      else None
    else if 0xF0 <= b0 <= 0xF4 then
      var lo := if b0 == 0xF0 then 0x90 else 0x80;
      var hi := if b0 == 0xF4 then 0x8F else 0xBF;
      if |b| >= 4 && lo <= b[1] <= hi && IsContinuation(b[2]) && IsContinuation(b[3])
      then Some(((b0 - 0xF0) * 0x40000 + Tail(b[1]) * 0x1000 + Tail(b[2]) * 0x40 + Tail(b[3]), 4))
      else None
    else None
  }

  /** Strict decoding: the whole input must be well-formed UTF-8. */
  function Decode(b: seq<byte>): (r: Option<seq<CodePoint>>)
    decreases |b|
    ensures r.Some? ==> forall k :: 0 <= k < |r.value| ==> IsScalar(r.value[k])
    ensures r.Some? ==> |r.value| <= |b|
  {
    if |b| == 0 then Some([])
    else
      match DecodeFirst(b)
      case None => None
      case Some((c, n)) =>
        match Decode(b[n..])
        case None => None
        case Some(t) => Some([c] + t)
  }

  /** Splitting `q * 64 + r` into its quotient and remainder by 64. */
  lemma Split64(q: int, r: int)
    requires 0 <= q && 0 <= r < 0x40
    ensures (q * 0x40 + r) / 0x40 == q && (q * 0x40 + r) % 0x40 == r
  {
  }

  /** The base-64 digits of a code point, as the four-byte form lays them out. */
  lemma Digits(c: CodePoint)
    ensures c / 0x1000 == c / 0x40000 * 0x40 + c / 0x1000 % 0x40
    ensures c / 0x40 == c / 0x1000 * 0x40 + c / 0x40 % 0x40
    ensures c == c / 0x40 * 0x40 + c % 0x40
  {
    var c1 := c / 0x40;
    var c2 := c1 / 0x40;
    var c3 := c2 / 0x40;
    assert c == c1 * 0x40 + c % 0x40;
    assert c1 == c2 * 0x40 + c1 % 0x40;
    assert c2 == c3 * 0x40 + c2 % 0x40;
    assert c == c2 * 0x1000 + (c1 % 0x40 * 0x40 + c % 0x40);
    assert c / 0x1000 == c2;
    assert c == c3 * 0x40000 + (c2 % 0x40 * 0x1000 + c1 % 0x40 * 0x40 + c % 0x40);
    assert c / 0x40000 == c3;
  }

  /** Reading back the UTF-8 form of a scalar value gives that value and its length. */
  lemma EncodeScalarDecodes(c: CodePoint, rest: seq<byte>)
    requires IsScalar(c)
    ensures DecodeFirst(EncodeScalar(c) + rest) == Some((c, EncodedLength(c)))
  {
    Digits(c);
    var b := EncodeScalar(c) + rest;
    if c < 0x80 {
    } else if c < 0x800 {
      assert Tail(b[1]) == c % 0x40;
    } else if c < 0x10000 {
      assert Tail(b[1]) == c / 0x40 % 0x40 && Tail(b[2]) == c % 0x40;
    } else {
      assert Tail(b[1]) == c / 0x1000 % 0x40 && Tail(b[2]) == c / 0x40 % 0x40 && Tail(b[3]) == c % 0x40;
    }
  }

  /** Every well-formed character read by DecodeFirst is the UTF-8 form of its code point. */
  lemma DecodeFirstIsEncoding(b: seq<byte>)
    requires |b| > 0 && DecodeFirst(b).Some?
    ensures EncodeScalar(DecodeFirst(b).value.0) == b[..DecodeFirst(b).value.1]
  {
    var n := DecodeFirst(b).value.1;
    if n == 2 {
      TwoByteForm(b[0], b[1]);
    } else if n == 3 {
      ThreeByteForm(b[0], b[1], b[2]);
    } else if n == 4 {
      FourByteForm(b[0], b[1], b[2], b[3]);
    }
  }

  lemma TwoByteForm(b0: byte, b1: byte)
    requires 0xC2 <= b0 <= 0xDF && IsContinuation(b1)
    ensures var c := (b0 as int - 0xC0) * 0x40 + Tail(b1);
      0x80 <= c < 0x800 && EncodeScalar(c) == [b0, b1]
  {
    Split64(b0 as int - 0xC0, Tail(b1));
  }

  lemma ThreeByteForm(b0: byte, b1: byte, b2: byte)
    requires 0xE0 <= b0 <= 0xEF && IsContinuation(b1) && IsContinuation(b2)
    requires b0 == 0xE0 ==> 0xA0 <= b1
    requires b0 == 0xED ==> b1 <= 0x9F
    ensures var c := (b0 as int - 0xE0) * 0x1000 + Tail(b1) * 0x40 + Tail(b2);
      0x800 <= c < 0x10000 && IsScalar(c) && EncodeScalar(c) == [b0, b1, b2]
  {
    Split64(b0 as int - 0xE0, Tail(b1));
    Split64((b0 as int - 0xE0) * 0x40 + Tail(b1), Tail(b2));
  }

  lemma FourByteForm(b0: byte, b1: byte, b2: byte, b3: byte)
    requires 0xF0 <= b0 <= 0xF4 && IsContinuation(b1) && IsContinuation(b2) && IsContinuation(b3)
    requires b0 == 0xF0 ==> 0x90 <= b1
    requires b0 == 0xF4 ==> b1 <= 0x8F
    ensures var c := (b0 as int - 0xF0) * 0x40000 + Tail(b1) * 0x1000 + Tail(b2) * 0x40 + Tail(b3);
      0x10000 <= c < 0x110000 && EncodeScalar(c) == [b0, b1, b2, b3]
  {
    Split64(b0 as int - 0xF0, Tail(b1));
    Split64((b0 as int - 0xF0) * 0x40 + Tail(b1), Tail(b2));
    Split64(((b0 as int - 0xF0) * 0x40 + Tail(b1)) * 0x40 + Tail(b2), Tail(b3));
  }


  /** Decoding undoes encoding. */
  lemma {:induction false} DecodeEncode(s: seq<CodePoint>)
    requires Encode(s).Some?
    ensures Decode(Encode(s).value) == Some(s)
  {
    if |s| > 0 {
      var t := Encode(s[1..]).value;
      EncodeScalarDecodes(s[0], t);
      DecodeEncode(s[1..]);
      var b := EncodeScalar(s[0]) + t;
      assert b[EncodedLength(s[0])..] == t;
      assert [s[0]] + s[1..] == s;
    }
  }

  /** The first character of well-formed UTF-8 is the encoding of a scalar
      value, and the rest is again well-formed. */
  lemma DecodeHead(b: seq<byte>) returns (c: CodePoint, n: nat)
    requires |b| > 0 && Decode(b).Some?
    ensures IsScalar(c) && 1 <= n <= |b| && EncodeScalar(c) == b[..n]
    ensures Decode(b[n..]).Some? && Decode(b).value == [c] + Decode(b[n..]).value
  {
    c, n := DecodeFirst(b).value.0, DecodeFirst(b).value.1;
    DecodeFirstIsEncoding(b);
  }

  /** Encoding a scalar value in front of a text whose encoding is known. */
  lemma EncodeStep(b: seq<byte>, c: CodePoint, n: nat, t: seq<CodePoint>)
    requires IsScalar(c) && n <= |b| && EncodeScalar(c) == b[..n] && Encode(t) == Some(b[n..])
    ensures Encode([c] + t) == Some(b)
  {
    assert ([c] + t)[0] == c && ([c] + t)[1..] == t;
    assert b[..n] + b[n..] == b;
  }

  /** Encoding undoes decoding: well-formed UTF-8 has exactly one reading. */
  lemma {:induction false} EncodeDecode(b: seq<byte>)
    requires Decode(b).Some?
    ensures Encode(Decode(b).value) == Some(b)
  {
    if |b| > 0 {
      var c, n := DecodeHead(b);
      EncodeDecode(b[n..]);
      EncodeStep(b, c, n, Decode(b[n..]).value);
    }
  }


}
