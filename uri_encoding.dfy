/** JavaScript's `encodeURIComponent`, which the email confirmation handler
    applies to error messages it puts into a redirect's query, and the
    matching decoder `decodeURIComponent`. Characters are Unicode scalar
    values, so the lone surrogates on which the JavaScript function throws do
    not arise. */
module UriEncoding {
  import opened Types

  type Byte = b: int | 0 <= b < 256

  /** The characters `encodeURIComponent` leaves as they are. */
  predicate Unreserved(c: char) {
    || ('A' <= c <= 'Z') || ('a' <= c <= 'z') || ('0' <= c <= '9')
    || c == '-' || c == '_' || c == '.' || c == '!' || c == '~' || c == '*'
    || c == '\'' || c == '(' || c == ')'
  }

  /** The UTF-8 encoding of one scalar value. */
  function Utf8(c: char): (bs: seq<Byte>)
    ensures 1 <= |bs| <= 4
  {
    var n := c as int;
    if n < 0x80 then [n]
    else if n < 0x800 then [0xC0 + n / 64, 0x80 + n % 64]
    else if n < 0x10000 then [0xE0 + n / 4096, 0x80 + (n / 64) % 64, 0x80 + n % 64]
    else [0xF0 + n / 262144, 0x80 + (n / 4096) % 64, 0x80 + (n / 64) % 64, 0x80 + n % 64]
  }

  const HexDigits: string := "0123456789ABCDEF"

  /** `%` and the byte as two upper-case hexadecimal digits. */
  function PercentByte(b: Byte): (r: string)
    ensures |r| == 3 && r[0] == '%'
  {
    ['%', HexDigits[b / 16], HexDigits[b % 16]]
  }

  function PercentBytes(bs: seq<Byte>): (r: string)
    ensures |r| == 3 * |bs|
  {
    if bs == [] then [] else PercentByte(bs[0]) + PercentBytes(bs[1..])
  }

  function EncodeChar(c: char): (r: string)
    ensures 1 <= |r|
  {
    if Unreserved(c) then [c] else PercentBytes(Utf8(c))
  }

  /** `encodeURIComponent(s)`. */
  function EncodeURIComponent(s: string): (r: string)
    ensures forall c :: c in r ==> Unreserved(c) || c == '%'
  {
    if s == [] then []
    else
      var head := EncodeChar(s[0]);
      HexDigitsUnreserved(Utf8(s[0]));
      head + EncodeURIComponent(s[1..])
  }

  /** Percent-encoded bytes consist of `%` and digit characters. */
  lemma {:induction false} HexDigitsUnreserved(bs: seq<Byte>)
    ensures forall c :: c in PercentBytes(bs) ==> Unreserved(c) || c == '%'
  {
    if bs != [] {
      HexDigitsUnreserved(bs[1..]);
      var b := bs[0];
      assert Unreserved(HexDigits[b / 16]) && Unreserved(HexDigits[b % 16]);
      assert PercentBytes(bs) == PercentByte(b) + PercentBytes(bs[1..]);
    }
  }

  /** The value of a hexadecimal digit, either case. */
  function HexValue(c: char): Option<nat> {
    if '0' <= c <= '9' then Some(c as int - '0' as int)
    else if 'A' <= c <= 'F' then Some(c as int - 'A' as int + 10)
    else if 'a' <= c <= 'f' then Some(c as int - 'a' as int + 10)
    else None
  }

  /** The byte a string starts with when it starts with `%` and two digits. */
  function ByteAt(t: string): (r: Option<Byte>)
  {
    if |t| >= 3 && t[0] == '%' && HexValue(t[1]).Some? && HexValue(t[2]).Some?
       && HexValue(t[1]).value < 16 && HexValue(t[2]).value < 16
    then Some(16 * HexValue(t[1]).value + HexValue(t[2]).value)
    else None
  }

  /** The payload of a continuation byte `10xxxxxx` at the start of `t`. */
  function Continuation(t: string): (r: Option<int>)
    ensures r.Some? ==> 0 <= r.value < 64 && |t| >= 3
  {
    match ByteAt(t)
    case Some(b) => if 0x80 <= b < 0xC0 then Some(b - 0x80) else None
    case None => None
  }

  /** A character from the lead byte `b0` of a two-byte sequence and the
      encoded continuation byte in `u`; overlong forms fail. */
  function DecodeTwo(b0: int, u: string): (r: Option<(char, nat)>)
    requires 0xC0 <= b0 < 0xE0
    ensures r.Some? ==> r.value.1 == 3 <= |u|
  {
    match Continuation(u)
    case None => None
    case Some(c1) =>
      var n := (b0 - 0xC0) * 64 + c1;
      if n < 0x80 then None else Some((n as char, 3))
  }

  /** The same for a three-byte sequence; overlong forms and surrogates fail. */
  function DecodeThree(b0: int, u: string): (r: Option<(char, nat)>)
    requires 0xE0 <= b0 < 0xF0
    ensures r.Some? ==> r.value.1 == 6 <= |u|
  {
    match Continuation(u)
    case None => None
    case Some(c1) =>
      match Continuation(u[3..])
      case None => None
      case Some(c2) =>
        var n := (b0 - 0xE0) * 4096 + c1 * 64 + c2;
        if n < 0x800 || (0xD800 <= n < 0xE000) then None else Some((n as char, 6))
  }

  /** The same for a four-byte sequence; overlong forms and values past
      U+10FFFF fail. */
  function DecodeFour(b0: int, u: string): (r: Option<(char, nat)>)
    requires 0xF0 <= b0 < 0xF8
    ensures r.Some? ==> r.value.1 == 9 <= |u|
  {
    match Continuation(u)
    case None => None
    case Some(c1) =>
      match Continuation(u[3..])
      case None => None
      case Some(c2) =>
        match Continuation(u[6..])
        case None => None
        case Some(c3) =>
          var n := (b0 - 0xF0) * 262144 + c1 * 4096 + c2 * 64 + c3;
          if n < 0x10000 || n >= 0x110000 then None else Some((n as char, 9))
  }

  /** The character a lead byte `b0` starts, with the encoded continuation
      bytes in `u`, and how many characters of `u` they took. */
  function DecodeSequence(b0: Byte, u: string): (r: Option<(char, nat)>)
    ensures r.Some? ==> r.value.1 <= |u|
  {
    if b0 < 0x80 then Some((b0 as char, 0))
    else if 0xC0 <= b0 < 0xE0 then DecodeTwo(b0, u)
    else if 0xE0 <= b0 < 0xF0 then DecodeThree(b0, u)
    else if 0xF0 <= b0 < 0xF8 then DecodeFour(b0, u)
    else None
  }

  /** The first character of an encoded string and how many characters it
      took: a literal character, or the percent-encoded bytes of one UTF-8
      sequence. */
  function DecodeOne(t: string): (r: Option<(char, nat)>)
    requires t != []
    ensures r.Some? ==> 1 <= r.value.1 <= |t|
  {
    if t[0] != '%' then Some((t[0], 1))
    else match ByteAt(t)
      case None => None
      case Some(b0) =>
        match DecodeSequence(b0, t[3..])
        case None => None
        case Some((c, k)) => Some((c, 3 + k))
  }

  /** `decodeURIComponent(t)`; `None` where it throws. */
  function DecodeURIComponent(t: string): Option<string>
    decreases |t|
  {
    if t == [] then Some([])
    else match DecodeOne(t)
      case None => None
      case Some((c, k)) =>
        match DecodeURIComponent(t[k..])
        case None => None
        case Some(s) => Some([c] + s)
  }

  /** A digit of `HexDigits` reads back as its position. */
  lemma HexDigitValue(d: nat)
    requires d < 16
    ensures HexValue(HexDigits[d]) == Some(d)
  {
  }

  /** A percent-encoded byte reads back as that byte, whatever follows. */
  lemma PercentByteReads(b: Byte, rest: string)
    ensures ByteAt(PercentByte(b) + rest) == Some(b)
    ensures (PercentByte(b) + rest)[3..] == rest
  {
    HexDigitValue(b / 16);
    HexDigitValue(b % 16);
    var t := PercentByte(b) + rest;
    assert t[1] == HexDigits[b / 16] && t[2] == HexDigits[b % 16];
  }

  /** Splits the percent encoding of a byte sequence at its first byte. */
  lemma PercentBytesFront(bs: seq<Byte>, rest: string)
    requires bs != []
    ensures PercentBytes(bs) + rest == PercentByte(bs[0]) + (PercentBytes(bs[1..]) + rest)
  {
    assert PercentBytes(bs) == PercentByte(bs[0]) + PercentBytes(bs[1..]);
  }

  /** The continuation bytes of `Utf8` read back as their six payload bits. */
  lemma ContinuationReads(x: int, rest: string)
    requires 0 <= x < 64
    ensures Continuation(PercentByte(0x80 + x) + rest) == Some(x)
  {
    PercentByteReads(0x80 + x, rest);
  }

  lemma TwoDigits(n: int)
    requires 0 <= n
    ensures (n / 64) * 64 + n % 64 == n
  {
  }

  lemma ThreeDigits(n: int)
    requires 0 <= n
    ensures (n / 4096) * 4096 + ((n / 64) % 64) * 64 + n % 64 == n
  {
    var q := n / 64;
    assert n == q * 64 + n % 64;
    assert q == (q / 64) * 64 + q % 64;
    assert q / 64 == n / 4096;
  }

  lemma FourDigits(n: int)
    requires 0 <= n
    ensures (n / 262144) * 262144 + ((n / 4096) % 64) * 4096 + ((n / 64) % 64) * 64 + n % 64 == n
  {
    var q := n / 4096;
    ThreeDigits(n);
    assert q == (q / 64) * 64 + q % 64;
    assert q / 64 == n / 262144;
  }

  /** A two-byte sequence decodes to its scalar value. */
  lemma DecodeTwoBytes(a: int, x1: int, rest: string)
    requires 0 <= a < 32 && 0 <= x1 < 64 && 0x80 <= a * 64 + x1
    ensures DecodeSequence(0xC0 + a, PercentByte(0x80 + x1) + rest) == Some(((a * 64 + x1) as char, 3))
  {
    ContinuationReads(x1, rest);
  }

  /** A three-byte sequence decodes to its scalar value. */
  lemma DecodeThreeBytes(a: int, x1: int, x2: int, rest: string)
    requires 0 <= a < 16 && 0 <= x1 < 64 && 0 <= x2 < 64
    requires 0x800 <= a * 4096 + x1 * 64 + x2 && !(0xD800 <= a * 4096 + x1 * 64 + x2 < 0xE000)
    ensures DecodeSequence(0xE0 + a, PercentByte(0x80 + x1) + (PercentByte(0x80 + x2) + rest))
         == Some(((a * 4096 + x1 * 64 + x2) as char, 6))
  {
    var tail2 := PercentByte(0x80 + x2) + rest;
    var u := PercentByte(0x80 + x1) + tail2;
    PercentByteReads(0x80 + x1, tail2);
    ContinuationReads(x1, tail2);
    ContinuationReads(x2, rest);
    assert Continuation(u[3..]) == Some(x2);
  }

  /** Three encoded continuation bytes read back in order. */
  lemma ThreeContinuations(x1: int, x2: int, x3: int, rest: string)
    requires 0 <= x1 < 64 && 0 <= x2 < 64 && 0 <= x3 < 64
    ensures var u := PercentByte(0x80 + x1) + (PercentByte(0x80 + x2) + (PercentByte(0x80 + x3) + rest));
      && Continuation(u) == Some(x1)
      && Continuation(u[3..]) == Some(x2)
      && Continuation(u[6..]) == Some(x3)
  {
    var tail3 := PercentByte(0x80 + x3) + rest;
    var tail2 := PercentByte(0x80 + x2) + tail3;
    var u := PercentByte(0x80 + x1) + tail2;
    PercentByteReads(0x80 + x1, tail2);
    PercentByteReads(0x80 + x2, tail3);
    assert u[6..] == tail3;
    ContinuationReads(x1, tail2);
    ContinuationReads(x2, tail3);
    ContinuationReads(x3, rest);
  }

  /** A four-byte sequence decodes to its scalar value. */
  lemma DecodeFourBytes(a: int, x1: int, x2: int, x3: int, rest: string)
    requires 0 <= a < 8 && 0 <= x1 < 64 && 0 <= x2 < 64 && 0 <= x3 < 64
    requires 0x10000 <= a * 262144 + x1 * 4096 + x2 * 64 + x3 < 0x110000
    ensures DecodeSequence(0xF0 + a, PercentByte(0x80 + x1) + (PercentByte(0x80 + x2) + (PercentByte(0x80 + x3) + rest)))
         == Some(((a * 262144 + x1 * 4096 + x2 * 64 + x3) as char, 9))
  {
    ThreeContinuations(x1, x2, x3, rest);
  }

  /** The percent encoding of a character's UTF-8 bytes, followed by `rest`,
      with its lead byte split off. */
  lemma SplitLead(c: char, rest: string) returns (u: string)
    ensures PercentBytes(Utf8(c)) + rest == PercentByte(Utf8(c)[0]) + u
    ensures u == PercentBytes(Utf8(c)[1..]) + rest
  {
    PercentBytesFront(Utf8(c), rest);
    u := PercentBytes(Utf8(c)[1..]) + rest;
  }

  /** The bytes after the lead byte decode to the character. */
  lemma DecodeTrail(c: char, rest: string)
    requires c as int >= 0x80
    ensures DecodeSequence(Utf8(c)[0], PercentBytes(Utf8(c)[1..]) + rest) == Some((c, 3 * (|Utf8(c)| - 1)))
  {
    var n := c as int;
    if n < 0x800 {
      DecodeTrailTwo(c, rest);
    } else if n < 0x10000 {
      DecodeTrailThree(c, rest);
    } else {
      DecodeTrailFour(c, rest);
    }
  }

  lemma DecodeTrailTwo(c: char, rest: string)
    requires 0x80 <= c as int < 0x800
    ensures DecodeSequence(Utf8(c)[0], PercentBytes(Utf8(c)[1..]) + rest) == Some((c, 3))
  {
    var n := c as int;
    var a, x1 := n / 64, n % 64;
    TwoDigits(n);
    var bs := Utf8(c);
    assert bs == [0xC0 + a, 0x80 + x1];
    assert PercentBytes(bs[1..]) == PercentByte(bs[1]);
    DecodeTwoBytes(a, x1, rest);
  }

  lemma DecodeTrailThree(c: char, rest: string)
    requires 0x800 <= c as int < 0x10000
    ensures DecodeSequence(Utf8(c)[0], PercentBytes(Utf8(c)[1..]) + rest) == Some((c, 6))
  {
    var n := c as int;
    var a, x1, x2 := n / 4096, (n / 64) % 64, n % 64;
    ThreeDigits(n);
    var bs := Utf8(c);
    assert bs == [0xE0 + a, 0x80 + x1, 0x80 + x2];
    PercentBytesFront(bs[1..], rest);
    assert PercentBytes(bs[1..][1..]) == PercentByte(bs[2]);
    DecodeThreeBytes(a, x1, x2, rest);
  }

  lemma DecodeTrailFour(c: char, rest: string)
    requires 0x10000 <= c as int
    ensures DecodeSequence(Utf8(c)[0], PercentBytes(Utf8(c)[1..]) + rest) == Some((c, 9))
  {
    var n := c as int;
    var a, x1, x2, x3 := n / 262144, (n / 4096) % 64, (n / 64) % 64, n % 64;
    FourDigits(n);
    assert a < 8;
    var bs := Utf8(c);
    assert bs == [0xF0 + a, 0x80 + x1, 0x80 + x2, 0x80 + x3];
    PercentBytesFront(bs[1..], rest);
    PercentBytesFront(bs[1..][1..], rest);
    assert PercentBytes(bs[1..][1..][1..]) == PercentByte(bs[3]);
    DecodeFourBytes(a, x1, x2, x3, rest);
  }

  /** Decoding the encoding of a character gives it back, and consumes exactly
      its encoding. */
  lemma DecodeOneEncodeChar(c: char, rest: string)
    ensures DecodeOne(EncodeChar(c) + rest) == Some((c, |EncodeChar(c)|))
  {
    if Unreserved(c) {
      assert (EncodeChar(c) + rest)[0] == c;
    } else {
      var u := SplitLead(c, rest);
      PercentByteReads(Utf8(c)[0], u);
      if c as int >= 0x80 {
        DecodeTrail(c, rest);
      }
    }
  }

  /** `decodeURIComponent(encodeURIComponent(s)) == s`: an encoded message
      reads back unchanged from the query. */
  lemma {:induction false} DecodeEncode(s: string)
    ensures DecodeURIComponent(EncodeURIComponent(s)) == Some(s)
  {
    if s != [] {
      var head := EncodeChar(s[0]);
      var tail := EncodeURIComponent(s[1..]);
      DecodeOneEncodeChar(s[0], tail);
      assert (head + tail)[|head|..] == tail;
      DecodeEncode(s[1..]);
      assert [s[0]] + s[1..] == s;
    }
  }

  /** A string of unreserved characters is its own encoding. */
  lemma {:induction false} EncodeUnreserved(s: string)
    requires forall i :: 0 <= i < |s| ==> Unreserved(s[i])
    ensures EncodeURIComponent(s) == s
  {
    if s != [] {
      EncodeUnreserved(s[1..]);
      assert [s[0]] + s[1..] == s;
    }
  }
}
