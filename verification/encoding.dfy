/** The two byte-level encodings around the digest: `str.encode()` turns a
    cell value into UTF-8 bytes before hashing, and `hexdigest()` renders the
    digest bytes as lowercase hexadecimal text. Both are given with their
    decoders, and each round trip is proved. */
module Encoding {

  import opened Results

  type byte = x: int | 0 <= x < 256

  /** A Unicode scalar value: a code point that is not a surrogate. */
  predicate IsScalar(n: int) {
    0 <= n < 0xD800 || 0xE000 <= n < 0x110000
  }

  predicate IsContinuation(b: byte) {
    0x80 <= b < 0xC0
  }

  /** The UTF-8 encoding of one character (RFC 3629, section 3). */
  function EncodeChar(c: char): (bs: seq<byte>)
    ensures 1 <= |bs| <= 4
    ensures forall i :: 1 <= i < |bs| ==> IsContinuation(bs[i])
  {
    var n := c as int;
    if n < 0x80 then [n]
    else if n < 0x800 then [0xC0 + n / 64, 0x80 + n % 64]
    else if n < 0x10000 then [0xE0 + n / 4096, 0x80 + (n / 64) % 64, 0x80 + n % 64]
    else [0xF0 + n / 262144, 0x80 + (n / 4096) % 64, 0x80 + (n / 64) % 64, 0x80 + n % 64]
  }

  /** `s.encode('utf-8')`. */
  function Utf8(s: string): seq<byte>
    decreases |s|
  {
    if |s| == 0 then [] else EncodeChar(s[0]) + Utf8(s[1..])
  }

  /** Decodes the character at the start of `bs`, returning it with the
      number of bytes it occupies; rejects malformed, overlong and surrogate
      sequences. */
  function DecodeFirst(bs: seq<byte>): (r: Option<(char, nat)>)
    requires |bs| != 0
    ensures r.Some? ==> 1 <= r.value.1 <= |bs|
  {
    var b0: int := bs[0];
    if b0 < 0x80 then Some((b0 as char, 1))
    else if 0xC0 <= b0 < 0xE0 && |bs| >= 2 && IsContinuation(bs[1]) then
      var n: int := (b0 - 0xC0) * 64 + (bs[1] as int - 0x80);
      if 0x80 <= n then Some((n as char, 2)) else None
    else if 0xE0 <= b0 < 0xF0 && |bs| >= 3 && IsContinuation(bs[1]) && IsContinuation(bs[2]) then
      var n: int := (b0 - 0xE0) * 4096 + (bs[1] as int - 0x80) * 64 + (bs[2] as int - 0x80);
      if 0x800 <= n && IsScalar(n) then Some((n as char, 3)) else None
    else if 0xF0 <= b0 < 0xF8 && |bs| >= 4 && IsContinuation(bs[1]) && IsContinuation(bs[2])
            && IsContinuation(bs[3]) then
      var n: int := (b0 - 0xF0) * 262144 + (bs[1] as int - 0x80) * 4096 + (bs[2] as int - 0x80) * 64 + (bs[3] as int - 0x80);
      if 0x10000 <= n && IsScalar(n) then Some((n as char, 4)) else None
    else None
  }

  /** `bs.decode('utf-8')`, with `None` for invalid input. */
  function DecodeUtf8(bs: seq<byte>): Option<string>
    decreases |bs|
  {
    if |bs| == 0 then Some([])
    else match DecodeFirst(bs)
      case None => None
      case Some((c, len)) =>
        match DecodeUtf8(bs[len..])
        case None => None
        case Some(rest) => Some([c] + rest)
  }

  /** The encoding of a character, followed by anything, decodes back to
      that character and its length. */
  lemma DecodeFirstEncodeChar(c: char, tail: seq<byte>)
    ensures DecodeFirst(EncodeChar(c) + tail) == Some((c, |EncodeChar(c)|))
  {
    var n := c as int;
    if n < 0x80 {
    } else if n < 0x800 {
      DecodeFirstTwo(c, tail);
    } else if n < 0x10000 {
      DecodeFirstThree(c, tail);
    } else {
      DecodeFirstFour(c, tail);
    }
  }

  /** The two-byte case. */
  lemma DecodeFirstTwo(c: char, tail: seq<byte>)
    requires 0x80 <= c as int < 0x800
    ensures DecodeFirst(EncodeChar(c) + tail) == Some((c, |EncodeChar(c)|))
  {
    var n := c as int;
    assert n == (n / 64) * 64 + n % 64;
  }

  /** The three-byte case. */
  lemma DecodeFirstThree(c: char, tail: seq<byte>)
    requires 0x800 <= c as int < 0x10000
    ensures DecodeFirst(EncodeChar(c) + tail) == Some((c, |EncodeChar(c)|))
  {
    var n := c as int;
    assert n / 64 == (n / 4096) * 64 + (n / 64) % 64;
    assert n == (n / 64) * 64 + n % 64;
  }

  /** The four-byte case. */
  lemma DecodeFirstFour(c: char, tail: seq<byte>)
    requires 0x10000 <= c as int
    ensures DecodeFirst(EncodeChar(c) + tail) == Some((c, |EncodeChar(c)|))
  {
    var n := c as int;
    assert n / 4096 == (n / 262144) * 64 + (n / 4096) % 64;
    assert n / 64 == (n / 4096) * 64 + (n / 64) % 64;
    assert n == (n / 64) * 64 + n % 64;
  }

  /** UTF-8 round trip: decoding an encoded string gives it back, so the
      bytes handed to the digest determine the cell value. */
  lemma {:induction false} Utf8RoundTrip(s: string)
    ensures DecodeUtf8(Utf8(s)) == Some(s)
    decreases |s|
  {
    if |s| != 0 {
      var e := EncodeChar(s[0]);
      DecodeFirstEncodeChar(s[0], Utf8(s[1..]));
      assert (e + Utf8(s[1..]))[|e|..] == Utf8(s[1..]);
      Utf8RoundTrip(s[1..]);
      assert [s[0]] + s[1..] == s;
    }
  }

  /** Equal encodings mean equal strings. */
  lemma Utf8Injective(s: string, t: string)
    requires Utf8(s) == Utf8(t)
    ensures s == t
  {
    Utf8RoundTrip(s);
    Utf8RoundTrip(t);
  }

  /** The lowercase hexadecimal digit for `d`. */
  function HexDigit(d: int): (c: char)
    requires 0 <= d < 16
    ensures c in "0123456789abcdef"
  {
    if d < 10 then ('0' as int + d) as char else ('a' as int + d - 10) as char
  }

  /** The value of a lowercase hexadecimal digit. */
  function HexValue(c: char): (r: Option<int>)
    ensures r.Some? ==> 0 <= r.value < 16
  {
    if '0' <= c <= '9' then Some(c as int - '0' as int)
    else if 'a' <= c <= 'f' then Some(c as int - 'a' as int + 10)
    else None
  }

  /** `hexdigest()`: two lowercase hexadecimal digits per byte, high nibble
      first. */
  function Hex(bs: seq<byte>): (s: string)
    ensures |s| == 2 * |bs|
    ensures forall c :: c in s ==> c in "0123456789abcdef"
    decreases |bs|
  {
    if |bs| == 0 then []
    else [HexDigit(bs[0] / 16), HexDigit(bs[0] % 16)] + Hex(bs[1..])
  }

  /** `bytes.fromhex` restricted to lowercase digits. */
  function Unhex(s: string): Option<seq<byte>>
    decreases |s|
  {
    if |s| < 2 then (if |s| == 0 then Some([]) else None)
    else
      var hi, lo, rest := HexValue(s[0]), HexValue(s[1]), Unhex(s[2..]);
      if hi.Some? && lo.Some? && rest.Some? then Some([hi.value * 16 + lo.value] + rest.value)
      else None
  }

  lemma HexValueDigit(d: int)
    requires 0 <= d < 16
    ensures HexValue(HexDigit(d)) == Some(d)
  {
  }

  lemma UnhexPair(a: char, b: char, t: string)
    requires HexValue(a).Some? && HexValue(b).Some? && Unhex(t).Some?
    ensures Unhex([a, b] + t) == Some([HexValue(a).value * 16 + HexValue(b).value] + Unhex(t).value)
  {
    assert ([a, b] + t)[2..] == t;
  }

  /** Hex round trip: the hexadecimal text determines the digest bytes. */
  lemma {:induction false} HexRoundTrip(bs: seq<byte>)
    ensures Unhex(Hex(bs)) == Some(bs)
    decreases |bs|
  {
    if |bs| != 0 {
      HexRoundTrip(bs[1..]);
      HexRoundTripStep(bs[0], bs[1..]);
      assert [bs[0]] + bs[1..] == bs;
    }
  }

  lemma HexRoundTripStep(x: byte, rest: seq<byte>)
    requires Unhex(Hex(rest)) == Some(rest)
    ensures Unhex(Hex([x] + rest)) == Some([x] + rest)
  {
    HexCons(x, rest);
    UnhexCons(x, Hex(rest));
  }

  lemma HexCons(x: byte, rest: seq<byte>)
    ensures Hex([x] + rest) == [HexDigit(x / 16), HexDigit(x % 16)] + Hex(rest)
  {
    assert ([x] + rest)[1..] == rest;
  }

  lemma UnhexCons(x: byte, t: string)
    requires Unhex(t).Some?
    ensures Unhex([HexDigit(x / 16), HexDigit(x % 16)] + t) == Some([x] + Unhex(t).value)
  {
    var hi, lo := HexDigit(x / 16), HexDigit(x % 16);
    HexPairValue(x);
    UnhexPair(hi, lo, t);
    assert HexValue(hi).value * 16 + HexValue(lo).value == x;
  }

  /** The two digits of a byte read back as that byte. */
  lemma HexPairValue(x: byte)
    ensures HexValue(HexDigit(x / 16)).Some? && HexValue(HexDigit(x % 16)).Some?
    ensures HexValue(HexDigit(x / 16)).value * 16 + HexValue(HexDigit(x % 16)).value == x
  {
    HexValueDigit(x / 16);
    HexValueDigit(x % 16);
  }

  /** Equal hexadecimal renderings mean equal digests. */
  lemma HexInjective(a: seq<byte>, b: seq<byte>)
    requires Hex(a) == Hex(b)
    ensures a == b
  {
    HexRoundTrip(a);
    HexRoundTrip(b);
  }
}
