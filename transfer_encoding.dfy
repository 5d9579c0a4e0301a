/** Content-transfer-encoding decoders: quoted-printable (section 6.7 of
    RFC 2045) and the base64 wrapper with its fallback. */
module TransferEncoding {
  import opened Wrappers
  import opened Text
  import opened Collaborators

  /** `input.replace(/=\r?\n/g, '')`: removes soft line breaks in one
      left-to-right pass. */
  function StripSoftBreaks(s: string): (r: string)
    ensures |r| <= |s|
    ensures '\n' !in s ==> r == s
    decreases |s|
  {
    if s == [] then []
    else if |s| >= 2 && s[0] == '=' && s[1] == '\n' then StripSoftBreaks(s[2..])
    else if |s| >= 3 && s[0] == '=' && s[1] == '\r' && s[2] == '\n' then StripSoftBreaks(s[3..])
    else [s[0]] + StripSoftBreaks(s[1..])
  }

  /** Text before the first `=` is kept as it is. */
  lemma {:induction false} StripSoftBreaksPlain(a: string, b: string)
    requires '=' !in a
    ensures StripSoftBreaks(a + b) == a + StripSoftBreaks(b)
    decreases |a|
  {
    if a != [] {
      var s := a + b;
      assert s[0] == a[0] && a[0] in a;
      assert s[1..] == a[1..] + b;
      assert '=' !in a[1..];
      StripSoftBreaksPlain(a[1..], b);
      assert a == [a[0]] + a[1..];
      Assoc([a[0]], a[1..], StripSoftBreaks(b));
    } else {
      assert a + b == b;
    }
  }

  /** A soft line break `=\n` is removed, and nothing around it. */
  lemma SoftBreakLF(a: string, b: string)
    requires '=' !in a
    ensures StripSoftBreaks(a + "=\n" + b) == a + StripSoftBreaks(b)
  {
    Assoc(a, "=\n", b);
    StripSoftBreaksPlain(a, "=\n" + b);
    assert ("=\n" + b)[2..] == b;
  }

  /** A soft line break `=\r\n` is removed, and nothing around it. */
  lemma SoftBreakCRLF(a: string, b: string)
    requires '=' !in a
    ensures StripSoftBreaks(a + "=\r\n" + b) == a + StripSoftBreaks(b)
  {
    Assoc(a, "=\r\n", b);
    StripSoftBreaksPlain(a, "=\r\n" + b);
    assert ("=\r\n" + b)[3..] == b;
  }

  /** The class `[0-9A-F]` under the `i` flag. */
  predicate IsHexDigit(c: char) {
    ('0' <= c <= '9') || ('A' <= c <= 'F') || ('a' <= c <= 'f')
  }

  function HexValue(c: char): (v: nat)
    requires IsHexDigit(c)
    ensures v < 16
  {
    if '0' <= c <= '9' then c as int - '0' as int
    else if 'A' <= c <= 'F' then c as int - 'A' as int + 10
    else c as int - 'a' as int + 10
  }

  /** The byte a `=XX` escape stands for (`parseInt(hex, 16)`). */
  function EscapedByte(hi: char, lo: char): byte
    requires IsHexDigit(hi) && IsHexDigit(lo)
  {
    (HexValue(hi) * 16 + HexValue(lo)) as byte
  }

  /** The bytes the decoding loop pushes for a text without soft breaks:
      `=` followed by two hex digits gives one byte and consumes three
      characters; any other character gives its low 8 bits. */
  function QpBytes(s: string): seq<byte>
    decreases |s|
  {
    if s == [] then []
    else if s[0] == '=' && |s| > 2 && IsHexDigit(s[1]) && IsHexDigit(s[2]) then
      [EscapedByte(s[1], s[2])] + QpBytes(s[3..])
    else [LowByte(s[0])] + QpBytes(s[1..])
  }

  /** The `while` loop of `decodeQuotedPrintable`, run on the input once
      its soft line breaks are removed. */
  method QuotedPrintableBytes(input: string) returns (bytes: seq<byte>)
    ensures bytes == QpBytes(StripSoftBreaks(input))
  {
    var s := StripSoftBreaks(input);
    bytes := [];
    var i := 0;
    while i < |s|
      invariant 0 <= i <= |s|
      invariant bytes + QpBytes(s[i..]) == QpBytes(s)
    {
      QpBytesAt(s, i);
      if s[i] == '=' && i + 2 < |s| {
        if IsHexDigit(s[i + 1]) && IsHexDigit(s[i + 2]) {
          ByteAssoc(bytes, [EscapedByte(s[i + 1], s[i + 2])], QpBytes(s[i + 3..]));
          bytes := bytes + [EscapedByte(s[i + 1], s[i + 2])];
          i := i + 3;
        } else {
          ByteAssoc(bytes, [LowByte(s[i])], QpBytes(s[i + 1..]));
          bytes := bytes + [LowByte(s[i])];
          i := i + 1;
        }
      } else {
        ByteAssoc(bytes, [LowByte(s[i])], QpBytes(s[i + 1..]));
        bytes := bytes + [LowByte(s[i])];
        i := i + 1;
      }
    }
  }

  /** What the loop pushes at position `i`. */
  lemma QpBytesAt(s: string, i: nat)
    requires i < |s|
    ensures s[i] == '=' && i + 2 < |s| && IsHexDigit(s[i + 1]) && IsHexDigit(s[i + 2]) ==>
              QpBytes(s[i..]) == [EscapedByte(s[i + 1], s[i + 2])] + QpBytes(s[i + 3..])
    ensures !(s[i] == '=' && i + 2 < |s| && IsHexDigit(s[i + 1]) && IsHexDigit(s[i + 2])) ==>
              QpBytes(s[i..]) == [LowByte(s[i])] + QpBytes(s[i + 1..])
  {
    var t := s[i..];
    assert t[0] == s[i];
    if |t| > 2 {
      assert t[1] == s[i + 1] && t[2] == s[i + 2];
      assert t[3..] == s[i + 3..];
    }
    assert t[1..] == s[i + 1..];
  }

  lemma ByteAssoc(a: seq<byte>, b: seq<byte>, c: seq<byte>)
    ensures (a + b) + c == a + (b + c)
  {
  }

  /** `decodeQuotedPrintable(input, charset)`: the bytes handed to the
      charset converter, whose failure is not caught here. */
  function DecodeQuotedPrintable(env: Env, input: string, charset: string): (r: Result<string>)
    ensures '=' !in input ==>
              r == env.decode(seq(|input|, k requires 0 <= k < |input| => LowByte(input[k])), charset)
  {
    if '=' in input then env.decode(QpBytes(StripSoftBreaks(input)), charset)
    else
      StripSoftBreaksPlain(input, []);
      assert input + [] == input;
      QpBytesWithoutEscapes(input);
      assert QpBytes(input) == seq(|input|, k requires 0 <= k < |input| => LowByte(input[k]));
      env.decode(QpBytes(StripSoftBreaks(input)), charset)
  }

  /** Decoding the encoding of a byte string hands exactly those bytes to
      the charset converter. */
  lemma DecodeQuotedPrintableEncoded(env: Env, bytes: seq<byte>, charset: string)
    ensures DecodeQuotedPrintable(env, QpEncode(bytes), charset) == env.decode(bytes, charset)
  {
    QpRoundTrip(bytes);
  }

  /** Every escape consumes three characters for one byte, so the byte
      count never exceeds the length of the text. */
  lemma {:induction false} QpBytesLength(s: string)
    ensures |QpBytes(s)| <= |s|
    decreases |s|
  {
    if s != [] {
      if s[0] == '=' && |s| > 2 && IsHexDigit(s[1]) && IsHexDigit(s[2]) {
        QpBytesLength(s[3..]);
      } else {
        QpBytesLength(s[1..]);
      }
    }
  }

  /** A text without `=` maps one character to one byte. */
  lemma {:induction false} QpBytesWithoutEscapes(s: string)
    requires '=' !in s
    ensures |QpBytes(s)| == |s|
    ensures forall k :: 0 <= k < |s| ==> QpBytes(s)[k] == LowByte(s[k])
    decreases |s|
  {
    if s != [] {
      assert s[0] != '=';
      assert '=' !in s[1..];
      QpBytesWithoutEscapes(s[1..]);
      assert QpBytes(s) == [LowByte(s[0])] + QpBytes(s[1..]);
    }
  }

  /** The worked example: "Caf=C3=A9" gives the UTF-8 bytes of "Café". */
  lemma QpBytesExample()
    ensures QpBytes(StripSoftBreaks("Caf=C3=A9")) == [67, 97, 102, 0xC3, 0xA9]
  {
    var e2: string := ['=', 'A', '9'] + [];
    var e1: string := ['=', 'C', '3'] + e2;
    var f := ['f'] + e1;
    var a := ['a'] + f;
    var s := ['C'] + a;
    assert s == "Caf=C3=A9";
    assert '\n' !in s;
    QpBytesEscape('A', '9', []);
    assert EscapedByte('A', '9') == 0xA9;
    QpBytesEscape('C', '3', e2);
    assert EscapedByte('C', '3') == 0xC3;
    QpBytesLiteral('f', e1);
    QpBytesLiteral('a', f);
    QpBytesLiteral('C', a);
    assert QpBytes(s) == [67, 97, 102, 0xC3, 0xA9];
  }

  lemma QpBytesLiteral(c: char, rest: string)
    requires c != '='
    ensures QpBytes([c] + rest) == [LowByte(c)] + QpBytes(rest)
  {
    assert ([c] + rest)[1..] == rest;
  }

  lemma QpBytesEscape(hi: char, lo: char, rest: string)
    requires IsHexDigit(hi) && IsHexDigit(lo)
    ensures QpBytes(['=', hi, lo] + rest) == [EscapedByte(hi, lo)] + QpBytes(rest)
  {
    assert (['=', hi, lo] + rest)[3..] == rest;
  }

  // An encoder, the inverse the decoder is checked against.

  function HexDigit(n: nat): (c: char)
    requires n < 16
    ensures IsHexDigit(c) && HexValue(c) == n
  {
    if n < 10 then ('0' as int + n) as char else ('A' as int + n - 10) as char
  }

  /** A printable ASCII byte other than `=` stays literal; every other byte
      becomes `=XX` in upper-case hex. */
  function QpEncodeByte(b: byte): string {
    if 33 <= b <= 126 && b != 61 then [b as int as char]
    else ['=', HexDigit(b as int / 16), HexDigit(b as int % 16)]
  }

  function QpEncode(bytes: seq<byte>): string
    decreases |bytes|
  {
    if bytes == [] then [] else QpEncodeByte(bytes[0]) + QpEncode(bytes[1..])
  }

  lemma {:induction false} QpEncodeHasNoLineBreaks(bytes: seq<byte>)
    ensures '\n' !in QpEncode(bytes)
    decreases |bytes|
  {
    if bytes != [] {
      QpEncodeHasNoLineBreaks(bytes[1..]);
    }
  }

  /** Decoding the encoding of a byte string gives the byte string back. */
  lemma {:induction false} QpRoundTrip(bytes: seq<byte>)
    ensures QpBytes(StripSoftBreaks(QpEncode(bytes))) == bytes
  {
    QpEncodeHasNoLineBreaks(bytes);
    QpBytesEncode(bytes);
  }

  lemma {:induction false} QpBytesEncode(bytes: seq<byte>)
    ensures QpBytes(QpEncode(bytes)) == bytes
    decreases |bytes|
  {
    if bytes != [] {
      QpBytesEncodeByte(bytes[0], QpEncode(bytes[1..]));
      QpBytesEncode(bytes[1..]);
      assert bytes == [bytes[0]] + bytes[1..];
    }
  }

  /** The encoding of one byte decodes to that byte, whatever follows. */
  lemma QpBytesEncodeByte(b: byte, rest: string)
    ensures QpBytes(QpEncodeByte(b) + rest) == [b] + QpBytes(rest)
  {
    var e := QpEncodeByte(b);
    var s := e + rest;
    if 33 <= b <= 126 && b != 61 {
      assert s[0] == b as int as char && s[1..] == rest;
    } else {
      assert s[0] == '=' && s[1] == e[1] && s[2] == e[2] && s[3..] == rest;
      assert EscapedByte(e[1], e[2]) == b;
    }
  }

  /** `decodeBase64(input, charset)`: a charset failure is caught here and
      yields the encoded input itself. */
  function DecodeBase64(env: Env, input: string, charset: string): (r: string)
    ensures env.decode(env.base64Bytes(input), charset).Ok? ==>
              r == env.decode(env.base64Bytes(input), charset).value
    ensures env.decode(env.base64Bytes(input), charset).Err? ==> r == input
  {
    match env.decode(env.base64Bytes(input), charset)
    case Ok(text) => text
    case Err(_) => input
  }
}
