/**
 * encodeURIComponent and its inverse, over Dafny characters (Unicode scalar
 * values). The encoder keeps the unreserved marks of section 2.3 of RFC 2396
 * and percent-encodes (section 2.1 of RFC 3986) every UTF-8 byte of every
 * other character, with upper-case hexadecimal digits, as section 19.2.6.5 of
 * ECMA-262 prescribes. The decoder follows the Decode operation of ECMA-262
 * with an empty reserved set, i.e. decodeURIComponent, and serves as the
 * encoder's independent partner.
 */
module UriComponent {
  import opened Wrappers
  import opened JsString

  type Byte = b: int | 0 <= b < 256

  /** The characters encodeURIComponent leaves alone. */
  predicate Unreserved(c: char) {
    ('A' <= c <= 'Z') || ('a' <= c <= 'z') || ('0' <= c <= '9') ||
    c == '-' || c == '_' || c == '.' || c == '!' || c == '~' ||
    c == '*' || c == '\'' || c == '(' || c == ')'
  }

  predicate IsUpperHexDigit(c: char) {
    ('0' <= c <= '9') || ('A' <= c <= 'F')
  }

  /** Hex digits the decoder accepts (either case). */
  predicate IsHexDigit(c: char) {
    IsUpperHexDigit(c) || ('a' <= c <= 'f')
  }

  function HexDigit(n: int): (c: char)
    requires 0 <= n < 16
    ensures IsUpperHexDigit(c)
    ensures HexValue(c) == n
  {
    if n < 10 then ('0' as int + n) as char else ('A' as int + n - 10) as char
  }

  function HexValue(c: char): (n: int)
    requires IsHexDigit(c)
    ensures 0 <= n < 16
  {
    if '0' <= c <= '9' then c as int - '0' as int
    else if 'A' <= c <= 'F' then c as int - 'A' as int + 10
    else c as int - 'a' as int + 10
  }

  predicate IsContinuation(b: Byte) {
    0x80 <= b < 0xC0
  }

  /** The UTF-8 encoding of one scalar value (RFC 3629, section 3). */
  function Utf8(c: char): (bs: seq<Byte>)
    ensures 1 <= |bs| <= 4
    ensures |bs| == 1 <==> c as int < 0x80
  {
    var cp := c as int;
    if cp < 0x80 then [cp]
    else if cp < 0x800 then [0xC0 + cp / 64, 0x80 + cp % 64]
    else if cp < 0x10000 then [0xE0 + cp / 4096, 0x80 + (cp / 64) % 64, 0x80 + cp % 64]
    else [0xF0 + cp / 262144, 0x80 + (cp / 4096) % 64, 0x80 + (cp / 64) % 64, 0x80 + cp % 64]
  }

  /** The number of bytes a UTF-8 sequence with this lead byte has; 0 for a byte
      that cannot start a sequence. */
  function SequenceLength(b: Byte): (n: nat)
    ensures n <= 4
  {
    if b < 0x80 then 1
    else if 0xC0 <= b < 0xE0 then 2
    else if 0xE0 <= b < 0xF0 then 3
    else if 0xF0 <= b < 0xF8 then 4
    else 0
  }

  /** Decodes one complete UTF-8 sequence, refusing malformed, overlong,
      surrogate and out-of-range sequences. */
  function Utf8Decode(bs: seq<Byte>): Option<char> {
    if |bs| == 1 && bs[0] < 0x80 then
      Some(bs[0] as char)
    else if |bs| == 2 && 0xC0 <= bs[0] < 0xE0 && IsContinuation(bs[1]) then
      var cp := Payload(bs[0], 0xC0) * 64 + Payload(bs[1], 0x80);
      if cp < 0x80 then None else Some(cp as char)
    else if |bs| == 3 && 0xE0 <= bs[0] < 0xF0 && IsContinuation(bs[1]) && IsContinuation(bs[2]) then
      var cp := Payload(bs[0], 0xE0) * 4096 + Payload(bs[1], 0x80) * 64 + Payload(bs[2], 0x80);
      if cp < 0x800 || (0xD800 <= cp && cp < 0xE000) then None else Some(cp as char)
    else if |bs| == 4 && 0xF0 <= bs[0] < 0xF8 && IsContinuation(bs[1]) && IsContinuation(bs[2])
            && IsContinuation(bs[3]) then
      var cp := Payload(bs[0], 0xF0) * 262144 + Payload(bs[1], 0x80) * 4096
                + Payload(bs[2], 0x80) * 64 + Payload(bs[3], 0x80);
      if cp < 0x10000 || cp >= 0x110000 then None else Some(cp as char)
    else
      None
  }

  /** The bits of a byte below its marker prefix. */
  function Payload(b: Byte, marker: int): (p: int)
    requires marker <= b
    ensures p == b - marker
  {
    b as int - marker
  }

  function PercentByte(b: Byte): (t: string)
    ensures |t| == 3
  {
    ['%', HexDigit(b / 16), HexDigit(b % 16)]
  }

  function PercentBytes(bs: seq<Byte>): (t: string)
    ensures |t| == 3 * |bs|
  {
    if bs == [] then [] else PercentByte(bs[0]) + PercentBytes(bs[1..])
  }

  /** One character's encoding: itself when unreserved, otherwise one %XX
      triple per UTF-8 byte. */
  function EncodeChar(c: char): (t: string)
    ensures WellEncoded(t)
    ensures t == [c] <==> Unreserved(c)
    ensures !Unreserved(c) ==> |t| == 3 * |Utf8(c)| && t[0] == '%'
  {
    if Unreserved(c) then [c]
    else
      PercentBytesWellEncoded(Utf8(c));
      PercentBytes(Utf8(c))
  }

  /** encodeURIComponent: its output consists of unreserved characters and
      %XX triples, and is never shorter than its input. */
  function EncodeURIComponent(s: string): (t: string)
    ensures WellEncoded(t)
    ensures |t| >= |s|
  {
    if s == [] then []
    else
      var r := EncodeURIComponent(s[1..]);
      WellEncodedConcat(EncodeChar(s[0]), r);
      EncodeChar(s[0]) + r
  }

  /** The shape of an encoder output: unreserved characters and %XX triples
      with upper-case hex digits, nothing else. */
  predicate WellEncoded(t: string)
    decreases |t|
  {
    if t == [] then true
    else if Unreserved(t[0]) then WellEncoded(t[1..])
    else |t| >= 3 && t[0] == '%' && IsUpperHexDigit(t[1]) && IsUpperHexDigit(t[2])
         && WellEncoded(t[3..])
  }

  /** Reads one %XX triple at the start of t. */
  function ReadPercentByte(t: string): (r: Option<Byte>)
    ensures r.Some? ==> |t| >= 3
  {
    if |t| >= 3 && t[0] == '%' && IsHexDigit(t[1]) && IsHexDigit(t[2])
    then Some(16 * HexValue(t[1]) + HexValue(t[2]))
    else None
  }

  /** Reads n consecutive %XX triples at the start of t. */
  function ReadPercentBytes(t: string, n: nat): (r: Option<seq<Byte>>)
    ensures r.Some? ==> |r.value| == n && 3 * n <= |t|
  {
    if n == 0 then Some([])
    else match ReadPercentByte(t)
      case None => None
      case Some(b) =>
        match ReadPercentBytes(t[3..], n - 1)
        case None => None
        case Some(bs) => Some([b] + bs)
  }

  function Prefixed(a: string, r: Option<string>): Option<string> {
    match r
    case None => None
    case Some(s) => Some(a + s)
  }

  /** decodeURIComponent; None where it throws URIError. */
  function DecodeURIComponent(t: string): Option<string>
    decreases |t|
  {
    if t == [] then Some([])
    else if t[0] != '%' then Prefixed([t[0]], DecodeURIComponent(t[1..]))
    else match ReadPercentByte(t)
      case None => None
      case Some(b) =>
        var n := SequenceLength(b);
        if n == 0 then None
        else match ReadPercentBytes(t, n)
          case None => None
          case Some(bs) =>
            match Utf8Decode(bs)
            case None => None
            case Some(c) => Prefixed([c], DecodeURIComponent(t[3 * n..]))
  }

  // ---------------------------------------------------------------------------
  // Properties

  lemma Utf8RoundTrip2(c: char)
    requires 0x80 <= c as int < 0x800
    ensures SequenceLength(Utf8(c)[0]) == 2
    ensures Utf8Decode(Utf8(c)) == Some(c)
  {
    var cp := c as int;
    var bs := Utf8(c);
    assert bs[0] == 0xC0 + cp / 64 && bs[1] == 0x80 + cp % 64;
    assert cp == (cp / 64) * 64 + cp % 64;
    assert Payload(bs[0], 0xC0) * 64 + Payload(bs[1], 0x80) == cp;
  }

  lemma Utf8RoundTrip3(c: char)
    requires 0x800 <= c as int < 0x10000
    ensures SequenceLength(Utf8(c)[0]) == 3
    ensures Utf8Decode(Utf8(c)) == Some(c)
  {
    var cp := c as int;
    var bs := Utf8(c);
    var q1 := cp / 64;
    assert cp == q1 * 64 + cp % 64;
    assert q1 == (q1 / 64) * 64 + q1 % 64;
    assert cp / 4096 == q1 / 64;
    assert Payload(bs[0], 0xE0) == q1 / 64;
    assert Payload(bs[1], 0x80) == q1 % 64;
    assert Payload(bs[2], 0x80) == cp % 64;
    assert Payload(bs[0], 0xE0) * 4096 + Payload(bs[1], 0x80) * 64 + Payload(bs[2], 0x80) == cp;
  }

  lemma Utf8RoundTrip4(c: char)
    requires 0x10000 <= c as int
    ensures SequenceLength(Utf8(c)[0]) == 4
    ensures Utf8Decode(Utf8(c)) == Some(c)
  {
    var cp := c as int;
    var bs := Utf8(c);
    var q1 := cp / 64;
    var q2 := q1 / 64;
    assert cp == q1 * 64 + cp % 64;
    assert q1 == q2 * 64 + q1 % 64;
    assert q2 == (q2 / 64) * 64 + q2 % 64;
    assert cp / 4096 == q2;
    assert cp / 262144 == q2 / 64;
    assert Payload(bs[0], 0xF0) == q2 / 64;
    assert Payload(bs[1], 0x80) == q2 % 64;
    assert Payload(bs[2], 0x80) == q1 % 64;
    assert Payload(bs[3], 0x80) == cp % 64;
    assert Payload(bs[0], 0xF0) * 262144 + Payload(bs[1], 0x80) * 4096
           + Payload(bs[2], 0x80) * 64 + Payload(bs[3], 0x80) == cp;
  }

  /** UTF-8 decoding undoes UTF-8 encoding, and the lead byte announces the
      length of the sequence. */
  lemma Utf8RoundTrip(c: char)
    ensures SequenceLength(Utf8(c)[0]) == |Utf8(c)|
    ensures Utf8Decode(Utf8(c)) == Some(c)
  {
    var cp := c as int;
    if cp < 0x80 {
    } else if cp < 0x800 {
      Utf8RoundTrip2(c);
    } else if cp < 0x10000 {
      Utf8RoundTrip3(c);
    } else {
      Utf8RoundTrip4(c);
    }
  }

  lemma {:induction false} ReadPercentBytesOfEncoding(bs: seq<Byte>, rest: string)
    ensures ReadPercentBytes(PercentBytes(bs) + rest, |bs|) == Some(bs)
  {
    if bs != [] {
      var t := PercentBytes(bs) + rest;
      assert t == PercentByte(bs[0]) + (PercentBytes(bs[1..]) + rest);
      assert ReadPercentByte(t) == Some(bs[0]);
      assert t[3..] == PercentBytes(bs[1..]) + rest;
      ReadPercentBytesOfEncoding(bs[1..], rest);
      assert [bs[0]] + bs[1..] == bs;
    }
  }

  /** A complete, valid UTF-8 sequence written as %XX triples decodes to its
      character, whatever follows it. */
  lemma DecodePercentSequence(bs: seq<Byte>, c: char, rest: string)
    requires |bs| >= 1 && SequenceLength(bs[0]) == |bs|
    requires Utf8Decode(bs) == Some(c)
    ensures DecodeURIComponent(PercentBytes(bs) + rest) == Prefixed([c], DecodeURIComponent(rest))
  {
    var t := PercentBytes(bs) + rest;
    assert t == PercentByte(bs[0]) + (PercentBytes(bs[1..]) + rest);
    assert t[0] == '%';
    assert ReadPercentByte(t) == Some(bs[0]);
    ReadPercentBytesOfEncoding(bs, rest);
    assert t[3 * |bs|..] == rest;
  }

  /** Decoding undoes the encoding of one character, whatever follows it. */
  lemma DecodeEncodeChar(c: char, rest: string)
    ensures DecodeURIComponent(EncodeChar(c) + rest) == Prefixed([c], DecodeURIComponent(rest))
  {
    var t := EncodeChar(c) + rest;
    if Unreserved(c) {
      assert t[0] == c && t[1..] == rest;
    } else {
      Utf8RoundTrip(c);
      DecodePercentSequence(Utf8(c), c, rest);
    }
  }

  lemma PrefixedTwice(a: string, b: string, r: Option<string>)
    ensures Prefixed(a, Prefixed(b, r)) == Prefixed(a + b, r)
  {
    match r
    case None =>
    case Some(x) => assert a + (b + x) == (a + b) + x;
  }

  lemma {:induction false} DecodeEncodedPrefix(s: string, rest: string)
    ensures DecodeURIComponent(EncodeURIComponent(s) + rest) == Prefixed(s, DecodeURIComponent(rest))
  {
    var r := DecodeURIComponent(rest);
    if s == [] {
      assert EncodeURIComponent(s) + rest == rest;
      assert Prefixed(s, r) == r by { match r case None => case Some(x) => assert [] + x == x; }
    } else {
      var tail := EncodeURIComponent(s[1..]) + rest;
      assert EncodeURIComponent(s) + rest == EncodeChar(s[0]) + tail by {
        ConcatAssoc(EncodeChar(s[0]), EncodeURIComponent(s[1..]), rest);
      }
      DecodeEncodeChar(s[0], tail);
      DecodeEncodedPrefix(s[1..], rest);
      PrefixedTwice([s[0]], s[1..], r);
      assert [s[0]] + s[1..] == s;
    }
  }

  /** decodeURIComponent(encodeURIComponent(s)) === s for every string. */
  lemma DecodeEncode(s: string)
    ensures DecodeURIComponent(EncodeURIComponent(s)) == Some(s)
  {
    DecodeEncodedPrefix(s, []);
    assert EncodeURIComponent(s) + [] == EncodeURIComponent(s);
    assert s + [] == s;
  }

  /** Text without '%' passes through the decoder unchanged. */
  lemma {:induction false} DecodePlainPrefix(a: string, rest: string)
    requires '%' !in a
    ensures DecodeURIComponent(a + rest) == Prefixed(a, DecodeURIComponent(rest))
  {
    var r := DecodeURIComponent(rest);
    if a == [] {
      assert a + rest == rest;
      assert Prefixed(a, r) == r by { match r case None => case Some(x) => assert [] + x == x; }
    } else {
      var t := a + rest;
      assert t[0] == a[0] && t[1..] == a[1..] + rest;
      assert a[0] != '%';
      assert '%' !in a[1..];
      DecodePlainPrefix(a[1..], rest);
      PrefixedTwice([a[0]], a[1..], r);
      assert [a[0]] + a[1..] == a;
    }
  }

  lemma {:induction false} WellEncodedConcat(a: string, b: string)
    requires WellEncoded(a) && WellEncoded(b)
    ensures WellEncoded(a + b)
    decreases |a|
  {
    if a == [] {
      assert a + b == b;
    } else {
      assert (a + b)[0] == a[0];
      if Unreserved(a[0]) {
        assert (a + b)[1..] == a[1..] + b;
        WellEncodedConcat(a[1..], b);
      } else {
        assert (a + b)[1] == a[1] && (a + b)[2] == a[2];
        assert (a + b)[3..] == a[3..] + b;
        WellEncodedConcat(a[3..], b);
      }
    }
  }

  lemma {:induction false} PercentBytesWellEncoded(bs: seq<Byte>)
    ensures WellEncoded(PercentBytes(bs))
  {
    if bs != [] {
      var t := PercentBytes(bs);
      assert t[3..] == PercentBytes(bs[1..]);
      PercentBytesWellEncoded(bs[1..]);
    }
  }

  lemma {:induction false} WellEncodedAlphabet(t: string)
    requires WellEncoded(t)
    ensures forall k :: 0 <= k < |t| ==> Unreserved(t[k]) || t[k] == '%' || IsUpperHexDigit(t[k])
    decreases |t|
  {
    if t != [] {
      if Unreserved(t[0]) {
        WellEncodedAlphabet(t[1..]);
        assert forall k :: 1 <= k < |t| ==> t[k] == t[1..][k - 1];
      } else {
        WellEncodedAlphabet(t[3..]);
        assert forall k :: 3 <= k < |t| ==> t[k] == t[3..][k - 3];
      }
    }
  }

  /** The delimiters of a URI's query and fragment never occur in an encoded
      component. */
  lemma EncodedHasNoDelimiters(s: string)
    ensures '&' !in EncodeURIComponent(s)
    ensures '#' !in EncodeURIComponent(s)
    ensures '=' !in EncodeURIComponent(s)
    ensures '?' !in EncodeURIComponent(s)
  {
    WellEncodedAvoids(EncodeURIComponent(s));
  }

  /** A well-encoded string holds none of the URI delimiters. */
  lemma WellEncodedAvoids(t: string)
    requires WellEncoded(t)
    ensures '&' !in t && '#' !in t && '=' !in t && '?' !in t
  {
    WellEncodedAlphabet(t);
  }

  /** The CR LF pair the contact form writes literally is the encoding of "\r\n". */
  lemma CrLfEncoding()
    ensures EncodeURIComponent("\r\n") == "%0D%0A"
  {
    assert Utf8('\r') == [13] && Utf8('\n') == [10];
    assert HexDigit(0) == '0' && HexDigit(13) == 'D' && HexDigit(10) == 'A';
    assert EncodeChar('\r') == "%0D";
    assert EncodeChar('\n') == "%0A";
    assert "\r\n"[1..] == "\n";
    assert EncodeURIComponent("\n") == "%0A";
  }
}
