/**
 * JavaScript's `encodeURIComponent` (ECMA-262, the Encode abstract operation with the
 * unreserved set of `encodeURIComponent`): every character outside A-Z, a-z, 0-9 and
 * `- _ . ! ~ * ' ( )` is written as the UTF-8 bytes of its code point (RFC 3629,
 * section 3), each byte as `%` and two upper-case hexadecimal digits (RFC 3986,
 * section 2.1). Its partner is `decodeURIComponent`, modelled here as `Decode`.
 *
 * A Dafny `char` is a Unicode scalar value, so the lone surrogates for which
 * `encodeURIComponent` throws cannot occur.
 */
module PercentEncoding {
  import opened Common

  type Byte = b: int | 0 <= b < 256

  /** The characters `encodeURIComponent` copies unchanged. */
  predicate Unreserved(c: char)
  {
    || ('A' <= c <= 'Z') || ('a' <= c <= 'z') || ('0' <= c <= '9')
    || c == '-' || c == '_' || c == '.' || c == '!' || c == '~' || c == '*'
    || c == '\'' || c == '(' || c == ')'
  }

  const HexDigits: string := "0123456789ABCDEF"

  /** The value of one hexadecimal digit, either case. */
  function HexValue(c: char): Option<int>
  {
    if '0' <= c <= '9' then Some(c as int - '0' as int)
    else if 'A' <= c <= 'F' then Some(c as int - 'A' as int + 10)
    else if 'a' <= c <= 'f' then Some(c as int - 'a' as int + 10)
    else None
  }

  /** The UTF-8 encoding of one code point. */
  function Utf8(c: char): (bytes: seq<Byte>)
    ensures 1 <= |bytes| <= 4
  {
    var v := c as int;
    if v < 0x80 then [v]
    else if v < 0x800 then [0xC0 + v / 64, 0x80 + v % 64]
    else if v < 0x10000 then [0xE0 + v / 4096, 0x80 + (v / 64) % 64, 0x80 + v % 64]
    else [0xF0 + v / 262144, 0x80 + (v / 4096) % 64, 0x80 + (v / 64) % 64, 0x80 + v % 64]
  }

  /** `%XY` for one byte. */
  function PercentByte(b: Byte): string
  {
    ['%', HexDigits[b / 16], HexDigits[b % 16]]
  }

  function PercentBytes(bytes: seq<Byte>): (s: string)
    ensures |s| == 3 * |bytes|
  {
    if bytes == [] then "" else PercentByte(bytes[0]) + PercentBytes(bytes[1..])
  }

  function EncodeChar(c: char): string
  {
    if Unreserved(c) then [c] else PercentBytes(Utf8(c))
  }

  /** `encodeURIComponent(s)`. */
  function EncodeURIComponent(s: string): (r: string)
    ensures |r| >= |s|
  {
    if s == [] then "" else EncodeChar(s[0]) + EncodeURIComponent(s[1..])
  }

  lemma {:induction false} PercentBytesSafe(bytes: seq<Byte>)
    ensures forall i :: 0 <= i < |PercentBytes(bytes)| ==>
      Unreserved(PercentBytes(bytes)[i]) || PercentBytes(bytes)[i] == '%'
  {
    if bytes != [] {
      PercentBytesSafe(bytes[1..]);
    }
  }

  /** What `encodeURIComponent` yields is made of unreserved characters and `%` only. */
  lemma {:induction false} EncodeIsUrlSafe(s: string)
    ensures forall i :: 0 <= i < |EncodeURIComponent(s)| ==>
      Unreserved(EncodeURIComponent(s)[i]) || EncodeURIComponent(s)[i] == '%'
    decreases |s|
  {
    if s != [] {
      EncodeIsUrlSafe(s[1..]);
      if !Unreserved(s[0]) {
        PercentBytesSafe(Utf8(s[0]));
      }
    }
  }

  /** The byte written as `%XY` at position `i` of `s`, if there is one. */
  function ByteAt(s: string, i: nat): (r: Option<Byte>)
    ensures r.Some? ==> i + 3 <= |s|
  {
    if i + 3 <= |s| && s[i] == '%' then
      match (HexValue(s[i + 1]), HexValue(s[i + 2]))
      case (Some(hi), Some(lo)) => Some(hi * 16 + lo)
      case _ => None
    else None
  }

  /** The six payload bits of a continuation byte `%80`..`%BF` at position `i`. */
  function ContinuationBits(s: string, i: nat): (r: Option<int>)
    ensures r.Some? ==> i + 3 <= |s| && 0 <= r.value < 64
  {
    match ByteAt(s, i)
    case Some(b) => if 0x80 <= b < 0xC0 then Some(b - 0x80) else None
    case None => None
  }

  /** A decoded code point, if it is a scalar value that needs `length` bytes. */
  function Scalar(v: int, minimum: int, length: nat): Option<(char, nat)>
  {
    if minimum <= v && (0 <= v < 0xD800 || 0xE000 <= v < 0x11_0000) then Some((v as char, length))
    else None
  }

  /**
   * One code point written as one to four `%XY` groups at the head of `s`, and how many
   * characters of `s` it took. Overlong forms, surrogates and values past U+10FFFF are
   * refused, as `decodeURIComponent` refuses them.
   */
  function DecodeScalar(s: string): (r: Option<(char, nat)>)
    ensures r.Some? ==> 3 <= r.value.1 <= |s|
  {
    match ByteAt(s, 0)
    case None => None
    case Some(b0) =>
      if b0 < 0x80 then Scalar(b0, 0, 3)
      else if 0xC0 <= b0 < 0xE0 then
        match ContinuationBits(s, 3)
        case Some(c1) => Scalar((b0 - 0xC0) * 64 + c1, 0x80, 6)
        case None => None
      else if 0xE0 <= b0 < 0xF0 then
        match (ContinuationBits(s, 3), ContinuationBits(s, 6))
        case (Some(c1), Some(c2)) => Scalar(((b0 - 0xE0) * 64 + c1) * 64 + c2, 0x800, 9)
        case _ => None
      else if 0xF0 <= b0 < 0xF8 then
        match (ContinuationBits(s, 3), ContinuationBits(s, 6), ContinuationBits(s, 9))
        case (Some(c1), Some(c2), Some(c3)) =>
          Scalar((((b0 - 0xF0) * 64 + c1) * 64 + c2) * 64 + c3, 0x1_0000, 12)
        case _ => None
      else None
  }

  function Prepend(c: char, rest: Option<string>): Option<string>
  {
    match rest
    case Some(t) => Some([c] + t)
    case None => None
  }

  /** `decodeURIComponent(s)`, with `None` where it throws a URIError. */
  function Decode(s: string): Option<string>
    decreases |s|
  {
    if s == [] then Some("")
    else if s[0] != '%' then Prepend(s[0], Decode(s[1..]))
    else
      match DecodeScalar(s)
      case Some((c, n)) => Prepend(c, Decode(s[n..]))
      case None => None
  }

  lemma HexDigitRoundTrip(d: int)
    requires 0 <= d < 16
    ensures HexValue(HexDigits[d]) == Some(d)
  {
  }

  /** The `k`-th group of a run of `%XY` groups spells the `k`-th byte. */
  lemma {:induction false} PercentBytesChars(bytes: seq<Byte>, k: nat)
    requires k < |bytes|
    ensures PercentBytes(bytes)[3 * k] == '%'
    ensures PercentBytes(bytes)[3 * k + 1] == HexDigits[bytes[k] / 16]
    ensures PercentBytes(bytes)[3 * k + 2] == HexDigits[bytes[k] % 16]
  {
    var s := PercentBytes(bytes);
    assert s == PercentByte(bytes[0]) + PercentBytes(bytes[1..]);
    if k > 0 {
      PercentBytesChars(bytes[1..], k - 1);
    }
  }

  /** Reading the `k`-th group of a run of `%XY` groups gives back the `k`-th byte. */
  lemma {:induction false} PercentBytesAt(bytes: seq<Byte>, rest: string, k: nat)
    requires k < |bytes|
    ensures ByteAt(PercentBytes(bytes) + rest, 3 * k) == Some(bytes[k])
  {
    var head := PercentByte(bytes[0]);
    var tail := PercentBytes(bytes[1..]) + rest;
    AppendAssoc(head, PercentBytes(bytes[1..]), rest);
    if k == 0 {
      ByteAtGroup(head + tail, 0, bytes[0]);
    } else {
      PercentBytesAt(bytes[1..], rest, k - 1);
      ByteAtShift(head, tail, 3 * (k - 1));
    }
  }

  /** A `%` followed by the two hex digits of `b` reads back as `b`. */
  lemma ByteAtGroup(s: string, i: nat, b: Byte)
    requires i + 3 <= |s| && s[i] == '%'
    requires s[i + 1] == HexDigits[b / 16] && s[i + 2] == HexDigits[b % 16]
    ensures ByteAt(s, i) == Some(b)
  {
    HexDigitRoundTrip(b / 16);
    HexDigitRoundTrip(b % 16);
  }

  /** Three characters in front move every group three places on. */
  lemma ByteAtShift(x: string, t: string, j: nat)
    requires |x| == 3
    ensures ByteAt(x + t, j + 3) == ByteAt(t, j)
  {
    var s := x + t;
    if j + 3 <= |t| {
      assert s[j + 3] == t[j] && s[j + 4] == t[j + 1] && s[j + 5] == t[j + 2];
    }
  }

  lemma Div64Twice(v: int)
    requires 0 <= v
    ensures (v / 64) / 64 == v / 4096 && (v / 4096) / 64 == v / 262144
  {
  }

  /** The bits the UTF-8 groups of `c` carry add back up to its code point. */
  lemma Utf8Payload(c: char)
    ensures var v := c as int;
      && (0x80 <= v < 0x800 ==> (v / 64) * 64 + v % 64 == v)
      && (0x800 <= v < 0x1_0000 ==> ((v / 4096) * 64 + (v / 64) % 64) * 64 + v % 64 == v)
      && (0x1_0000 <= v ==>
           (((v / 262144) * 64 + (v / 4096) % 64) * 64 + (v / 64) % 64) * 64 + v % 64 == v)
  {
    var v := c as int;
    var q := v / 64;
    Div64Twice(v);
    assert v == q * 64 + v % 64;
    assert q == (q / 64) * 64 + q % 64;
    var q2 := q / 64;
    assert q2 == (q2 / 64) * 64 + q2 % 64;
  }

  /** Decoding the groups `EncodeChar` writes for a reserved character gives the character back. */
  lemma DecodeScalarOfEncodeChar(c: char, rest: string)
    requires !Unreserved(c)
    ensures DecodeScalar(EncodeChar(c) + rest) == Some((c, |EncodeChar(c)|))
  {
    var v := c as int;
    assert EncodeChar(c) == PercentBytes(Utf8(c));
    if v < 0x80 {
      PercentBytesAt(Utf8(c), rest, 0);
      assert Scalar(v, 0, 3) == Some((c, 3));
    } else if v < 0x800 {
      EncodeTwoBytes(c, rest);
    } else if v < 0x1_0000 {
      EncodeThreeBytes(c, rest);
    } else {
      EncodeFourBytes(c, rest);
    }
  }

  /** The UTF-8 bytes of a code point from U+0080 to U+07FF, and the value they carry. */
  lemma EncodeTwoBytes(c: char, rest: string)
    requires 0x80 <= c as int < 0x800
    ensures DecodeScalar(PercentBytes(Utf8(c)) + rest) == Some((c, 6))
  {
    var v := c as int;
    var lead, c1 := v / 64, v % 64;
    Utf8Payload(c);
    assert 0 <= lead < 32 && 0 <= c1 < 64;
    var bytes := Utf8(c);
    assert |bytes| == 2 && bytes[0] == 0xC0 + lead && bytes[1] == 0x80 + c1;
    ReadTwoGroups(bytes, rest, lead, c1);
    DecodeTwoGroups(PercentBytes(bytes) + rest, lead, c1);
    assert lead * 64 + c1 == v;
  }

  /** The UTF-8 bytes of a code point from U+0800 to U+FFFF, and the value they carry. */
  lemma EncodeThreeBytes(c: char, rest: string)
    requires 0x800 <= c as int < 0x1_0000
    ensures DecodeScalar(PercentBytes(Utf8(c)) + rest) == Some((c, 9))
  {
    var v := c as int;
    var lead, c1, c2 := v / 4096, (v / 64) % 64, v % 64;
    Utf8Payload(c);
    Div64Twice(v);
    assert 0 <= lead < 16 && 0 <= c1 < 64 && 0 <= c2 < 64;
    var bytes := Utf8(c);
    assert |bytes| == 3 && bytes[0] == 0xE0 + lead && bytes[1] == 0x80 + c1 && bytes[2] == 0x80 + c2;
    ReadThreeGroups(bytes, rest, lead, c1, c2);
    DecodeThreeGroups(PercentBytes(bytes) + rest, lead, c1, c2);
    assert (lead * 64 + c1) * 64 + c2 == v;
  }

  /** The UTF-8 bytes of a code point from U+10000 on, and the value they carry. */
  lemma EncodeFourBytes(c: char, rest: string)
    requires 0x1_0000 <= c as int
    ensures DecodeScalar(PercentBytes(Utf8(c)) + rest) == Some((c, 12))
  {
    var v := c as int;
    var lead, c1, c2, c3 := v / 262144, (v / 4096) % 64, (v / 64) % 64, v % 64;
    Utf8Payload(c);
    Div64Twice(v);
    assert 0 <= lead < 8 && 0 <= c1 < 64 && 0 <= c2 < 64 && 0 <= c3 < 64;
    var bytes := Utf8(c);
    assert |bytes| == 4 && bytes[0] == 0xF0 + lead && bytes[1] == 0x80 + c1;
    assert bytes[2] == 0x80 + c2 && bytes[3] == 0x80 + c3;
    ReadFourGroups(bytes, rest, lead, c1, c2, c3);
    DecodeFourGroups(PercentBytes(bytes) + rest, lead, c1, c2, c3);
    assert ((lead * 64 + c1) * 64 + c2) * 64 + c3 == v;
  }

  /** A continuation byte `0x80 + c` among the groups reads back as its six payload bits `c`. */
  lemma ContinuationAt(bytes: seq<Byte>, rest: string, k: nat, c: int)
    requires k < |bytes| && 0 <= c < 64 && bytes[k] == 0x80 + c
    ensures ContinuationBits(PercentBytes(bytes) + rest, 3 * k) == Some(c)
  {
    PercentBytesAt(bytes, rest, k);
  }

  /** The groups of a two-byte sequence read back as its lead payload and continuation bits. */
  lemma ReadTwoGroups(bytes: seq<Byte>, rest: string, lead: int, c1: int)
    requires 0 <= c1 < 64
    requires |bytes| == 2 && bytes[0] == 0xC0 + lead && bytes[1] == 0x80 + c1
    ensures ByteAt(PercentBytes(bytes) + rest, 0) == Some(0xC0 + lead)
    ensures ContinuationBits(PercentBytes(bytes) + rest, 3) == Some(c1)
  {
    PercentBytesAt(bytes, rest, 0);
    ContinuationAt(bytes, rest, 1, c1);
  }

  /** The groups of a three-byte sequence read back as its lead payload and continuation bits. */
  lemma ReadThreeGroups(bytes: seq<Byte>, rest: string, lead: int, c1: int, c2: int)
    requires 0 <= c1 < 64 && 0 <= c2 < 64
    requires |bytes| == 3 && bytes[0] == 0xE0 + lead && bytes[1] == 0x80 + c1 && bytes[2] == 0x80 + c2
    ensures ByteAt(PercentBytes(bytes) + rest, 0) == Some(0xE0 + lead)
    ensures ContinuationBits(PercentBytes(bytes) + rest, 3) == Some(c1)
    ensures ContinuationBits(PercentBytes(bytes) + rest, 6) == Some(c2)
  {
    PercentBytesAt(bytes, rest, 0);
    ContinuationAt(bytes, rest, 1, c1);
    ContinuationAt(bytes, rest, 2, c2);
  }

  /** The groups of a four-byte sequence read back as its lead payload and continuation bits. */
  lemma ReadFourGroups(bytes: seq<Byte>, rest: string, lead: int, c1: int, c2: int, c3: int)
    requires 0 <= c1 < 64 && 0 <= c2 < 64 && 0 <= c3 < 64
    requires |bytes| == 4 && bytes[0] == 0xF0 + lead && bytes[1] == 0x80 + c1
    requires bytes[2] == 0x80 + c2 && bytes[3] == 0x80 + c3
    ensures ByteAt(PercentBytes(bytes) + rest, 0) == Some(0xF0 + lead)
    ensures ContinuationBits(PercentBytes(bytes) + rest, 3) == Some(c1)
    ensures ContinuationBits(PercentBytes(bytes) + rest, 6) == Some(c2)
    ensures ContinuationBits(PercentBytes(bytes) + rest, 9) == Some(c3)
  {
    PercentBytesAt(bytes, rest, 0);
    ContinuationAt(bytes, rest, 1, c1);
    ContinuationAt(bytes, rest, 2, c2);
    ContinuationAt(bytes, rest, 3, c3);
  }

  /** A lead byte `0xC0 + lead` and one continuation group decode to their combined value. */
  lemma DecodeTwoGroups(s: string, lead: int, c1: int)
    requires 0 <= lead < 32
    requires ByteAt(s, 0) == Some(0xC0 + lead) && ContinuationBits(s, 3) == Some(c1)
    ensures DecodeScalar(s) == Scalar(lead * 64 + c1, 0x80, 6)
  {
  }

  /** A lead byte `0xE0 + lead` and two continuation groups decode to their combined value. */
  lemma DecodeThreeGroups(s: string, lead: int, c1: int, c2: int)
    requires 0 <= lead < 16
    requires ByteAt(s, 0) == Some(0xE0 + lead)
    requires ContinuationBits(s, 3) == Some(c1) && ContinuationBits(s, 6) == Some(c2)
    ensures DecodeScalar(s) == Scalar((lead * 64 + c1) * 64 + c2, 0x800, 9)
  {
  }

  /** A lead byte `0xF0 + lead` and three continuation groups decode to their combined value. */
  lemma DecodeFourGroups(s: string, lead: int, c1: int, c2: int, c3: int)
    requires 0 <= lead < 8
    requires ByteAt(s, 0) == Some(0xF0 + lead)
    requires ContinuationBits(s, 3) == Some(c1) && ContinuationBits(s, 6) == Some(c2)
    requires ContinuationBits(s, 9) == Some(c3)
    ensures DecodeScalar(s) == Scalar(((lead * 64 + c1) * 64 + c2) * 64 + c3, 0x1_0000, 12)
  {
  }

  /** Decoding what one character encodes to, followed by anything, yields that character first. */
  lemma DecodeEncodeChar(c: char, tail: string)
    ensures Decode(EncodeChar(c) + tail) == Prepend(c, Decode(tail))
  {
    var head := EncodeChar(c);
    var e := head + tail;
    if Unreserved(c) {
      assert head == [c];
      assert e[0] == c && e[1..] == tail;
    } else {
      DecodeScalarOfEncodeChar(c, tail);
      PercentBytesChars(Utf8(c), 0);
      assert e[0] == '%';
      assert e[|head|..] == tail;
    }
  }

  /** `decodeURIComponent(encodeURIComponent(s)) == s` for every string. */
  lemma {:induction false} DecodeEncode(s: string)
    ensures Decode(EncodeURIComponent(s)) == Some(s)
    decreases |s|
  {
    if s != [] {
      assert EncodeURIComponent(s) == EncodeChar(s[0]) + EncodeURIComponent(s[1..]);
      DecodeEncodeChar(s[0], EncodeURIComponent(s[1..]));
      DecodeEncode(s[1..]);
      assert s == [s[0]] + s[1..];
    }
  }

  /** Text made of unreserved characters only is copied unchanged. */
  lemma {:induction false} EncodeUnreservedIsIdentity(s: string)
    requires forall i :: 0 <= i < |s| ==> Unreserved(s[i])
    ensures EncodeURIComponent(s) == s
    decreases |s|
  {
    if s != [] {
      EncodeUnreservedIsIdentity(s[1..]);
      assert s == [s[0]] + s[1..];
    }
  }

  /** Encoding a string that starts with `c` starts with the encoding of `c`. */
  lemma EncodeCons(c: char, s: string)
    ensures EncodeURIComponent([c] + s) == EncodeChar(c) + EncodeURIComponent(s)
  {
    var t := [c] + s;
    assert t[0] == c && t[1..] == s;
  }

  /** Encoding distributes over concatenation, one character at a time. */
  lemma {:induction false} EncodeAppend(a: string, b: string)
    ensures EncodeURIComponent(a + b) == EncodeURIComponent(a) + EncodeURIComponent(b)
    decreases |a|
  {
    if a == [] {
      assert a + b == b;
    } else {
      var c, tail := a[0], a[1..];
      assert a == [c] + tail;
      assert a + b == [c] + (tail + b);
      EncodeCons(c, tail);
      EncodeCons(c, tail + b);
      EncodeAppend(tail, b);
      AppendAssoc(EncodeChar(c), EncodeURIComponent(tail), EncodeURIComponent(b));
    }
  }
}
