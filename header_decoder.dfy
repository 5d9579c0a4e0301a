/** Decoding of RFC 2047 encoded-words (`=?charset?Q?text?=` and
    `=?charset?B?text?=`, sections 2, 4.1 and 4.2 of RFC 2047) inside a
    header value, one token at a time with a per-token fallback. */
module HeaderDecoder {
  import opened Wrappers
  import opened Text
  import opened Collaborators
  import opened TransferEncoding

  /** The three groups the pattern `=\?([^?]+)\?([QqBb])\?([^?]*)\?=` captures. */
  datatype EncodedWord = EncodedWord(charset: string, encoding: char, text: string)

  predicate WellFormed(w: EncodedWord) {
    && w.charset != []
    && '?' !in w.charset
    && w.encoding in "QqBb"
    && '?' !in w.text
  }

  /** The token an encoded-word is written as. */
  function Token(w: EncodedWord): string {
    "=?" + w.charset + "?" + [w.encoding] + "?" + w.text + "?="
  }

  /** The match of the encoded-word pattern at the start of `s`, if any. The
      classes `[^?]` cannot contain the `?` that follows them, so each group
      ends at the next `?` and the match is unique. */
  function EncodedWordAt(s: string): (w: Option<EncodedWord>)
    ensures w.Some? ==> WellFormed(w.value)
    ensures w.Some? ==> |Token(w.value)| <= |s| && s[..|Token(w.value)|] == Token(w.value)
  {
    if |s| >= 2 && s[0] == '=' && s[1] == '?' then
      match IndexOfChar(s, '?', 2)
      case None => None
      case Some(j) =>
        if j > 2 && j + 2 < |s| && s[j + 1] in "QqBb" && s[j + 2] == '?' then
          match IndexOfChar(s, '?', j + 3)
          case None => None
          case Some(k) =>
            if k + 1 < |s| && s[k + 1] == '=' then
              TokenAt(s, j, k);
              Some(EncodedWord(s[2..j], s[j + 1], s[j + 3..k]))
            else None
        else None
    else None
  }

  /** The groups found between the delimiters form a well-formed word
      whose token is the start of the text. */
  lemma TokenAt(s: string, j: nat, k: nat)
    requires 2 < j && j + 3 <= k && k + 1 < |s|
    requires s[0] == '=' && s[1] == '?' && s[j] == '?' && s[j + 1] in "QqBb" && s[j + 2] == '?' && s[k] == '?' && s[k + 1] == '='
    requires forall i :: 2 <= i < j ==> s[i] != '?'
    requires forall i :: j + 3 <= i < k ==> s[i] != '?'
    ensures var w := EncodedWord(s[2..j], s[j + 1], s[j + 3..k]);
            WellFormed(w) && |Token(w)| == k + 2 && s[..k + 2] == Token(w)
  {
    var w := EncodedWord(s[2..j], s[j + 1], s[j + 3..k]);
    assert '?' !in w.charset by {
      forall i | 0 <= i < |w.charset| ensures w.charset[i] != '?' {
        assert w.charset[i] == s[2 + i];
      }
    }
    assert '?' !in w.text by {
      forall i | 0 <= i < |w.text| ensures w.text[i] != '?' {
        assert w.text[i] == s[j + 3 + i];
      }
    }
    assert s[..k + 2] == Token(w);
  }

  /** A well-formed token at the start of a text is recognised as exactly
      that token, whatever follows it. */
  lemma EncodedWordAtToken(w: EncodedWord, rest: string)
    requires WellFormed(w)
    ensures EncodedWordAt(Token(w) + rest) == Some(w)
  {
    var s := Token(w) + rest;
    var j := 2 + |w.charset|;
    var k := j + 3 + |w.text|;
    TokenDelimiters(w, rest);
    FirstIndex(s, '?', 2, j);
    FirstIndex(s, '?', j + 3, k);
  }

  /** Where the delimiters of a token stand, and what lies between them. */
  lemma TokenDelimiters(w: EncodedWord, rest: string)
    requires WellFormed(w)
    ensures var s, j := Token(w) + rest, 2 + |w.charset|;
            var k := j + 3 + |w.text|;
            && k + 1 < |s|
            && s[0] == '=' && s[1] == '?'
            && s[j] == '?' && s[j + 1] == w.encoding && s[j + 2] == '?'
            && s[k] == '?' && s[k + 1] == '='
            && (forall i :: 2 <= i < j ==> s[i] != '?')
            && (forall i :: j + 3 <= i < k ==> s[i] != '?')
            && s[2..j] == w.charset && s[j + 3..k] == w.text
  {
    var s := Token(w) + rest;
    var cs, txt := w.charset, w.text;
    var j := 2 + |cs|;
    var k := j + 3 + |txt|;
    assert s[0] == '=' && s[1] == '?';
    assert s[j] == '?' && s[j + 1] == w.encoding && s[j + 2] == '?';
    assert s[k] == '?' && s[k + 1] == '=';
    forall i | 2 <= i < j ensures s[i] != '?' {
      assert s[i] == cs[i - 2];
    }
    forall i | j + 3 <= i < k ensures s[i] != '?' {
      assert s[i] == txt[i - j - 3];
    }
    assert s[2..j] == cs && s[j + 3..k] == txt;
  }

  /** The replacement for one token: a Q token has `_` turned into spaces
      and is quoted-printable decoded, and is left as the whole token when
      the charset conversion throws; a B token goes through `decodeBase64`,
      which catches its own failure and returns the bare payload. */
  function DecodeWord(env: Env, w: EncodedWord): (r: string)
    requires WellFormed(w)
    ensures w.encoding in "Qq" ==>
              var q := DecodeQuotedPrintable(env, ReplaceAll(w.text, "_", " "), w.charset);
              r == if q.Ok? then q.value else Token(w)
    ensures w.encoding in "Bb" ==>
              var b := env.decode(env.base64Bytes(w.text), w.charset);
              r == if b.Ok? then b.value else w.text
  {
    if w.encoding == 'Q' || w.encoding == 'q' then
      match DecodeQuotedPrintable(env, ReplaceAll(w.text, "_", " "), w.charset)
      case Ok(text) => text
      case Err(_) => Token(w)
    else
      DecodeBase64(env, w.text, w.charset)
  }

  /** `decodeHeaderValue`: a global replace of the encoded-word pattern,
      scanning left to right and resuming after each replaced token. */
  function DecodeHeaderValue(env: Env, s: string): (r: string)
    ensures (forall i :: 0 <= i < |s| - 1 ==> !(s[i] == '=' && s[i + 1] == '?')) ==> r == s
    decreases |s|
  {
    if s == [] then []
    else match EncodedWordAt(s)
      case Some(w) => DecodeWord(env, w) + DecodeHeaderValue(env, s[|Token(w)|..])
      case None => [s[0]] + DecodeHeaderValue(env, s[1..])
  }

  /** No encoded-word starts anywhere in `a` when `rest` follows it. */
  predicate Plain(a: string, rest: string) {
    forall i :: 0 <= i < |a| ==> EncodedWordAt(a[i..] + rest).None?
  }

  /** Text in which no token starts is copied unchanged. */
  lemma {:induction false} DecodeHeaderValuePlainPrefix(env: Env, a: string, b: string)
    requires Plain(a, b)
    ensures DecodeHeaderValue(env, a + b) == a + DecodeHeaderValue(env, b)
    decreases |a|
  {
    if a != [] {
      var c, t := a[0], a[1..];
      assert a == [c] + t;
      assert a[0..] == a;
      Assoc([c], t, b);
      PlainStep(env, c, t + b);
      assert Plain(t, b) by {
        forall i | 0 <= i < |t| ensures EncodedWordAt(t[i..] + b).None? {
          assert t[i..] == a[i + 1..];
        }
      }
      DecodeHeaderValuePlainPrefix(env, t, b);
      Assoc([c], t, DecodeHeaderValue(env, b));
    } else {
      assert a + b == b;
    }
  }

  /** A character that starts no token is copied. */
  lemma PlainStep(env: Env, c: char, t: string)
    requires EncodedWordAt([c] + t).None?
    ensures DecodeHeaderValue(env, [c] + t) == [c] + DecodeHeaderValue(env, t)
  {
    var s := [c] + t;
    assert s[0] == c;
    assert s[1..] == t;
  }

  /** Every `=` that is followed, inside `a`, by something other than `?`
      starts no token: such text is plain whatever follows it. */
  lemma PlainWithoutOpener(a: string, rest: string)
    requires forall i :: 0 <= i < |a| && a[i] == '=' ==> i + 1 < |a| && a[i + 1] != '?'
    ensures Plain(a, rest)
  {
    forall i | 0 <= i < |a| ensures EncodedWordAt(a[i..] + rest).None? {
      var s := a[i..] + rest;
      assert s[0] == a[i];
      if a[i] == '=' {
        assert s[1] == a[i + 1];
      }
    }
  }

  /** The worked example: an `=` in ordinary text before a token is kept,
      and the token is decoded. */
  lemma PlainEqualsBeforeToken(env: Env, w: EncodedWord)
    requires WellFormed(w)
    ensures DecodeHeaderValue(env, "50% = deal " + Token(w)) == "50% = deal " + DecodeWord(env, w)
  {
    var a := "50% = deal ";
    assert a[4] == '=' && a[5] == ' ';
    assert forall i :: 0 <= i < |a| && i != 4 ==> a[i] != '=';
    PlainWithoutOpener(a, Token(w));
    DecodeHeaderValuePlainPrefix(env, a, Token(w));
    DecodeHeaderValueToken(env, w, []);
    assert Token(w) + [] == Token(w);
    assert DecodeWord(env, w) + DecodeHeaderValue(env, []) == DecodeWord(env, w);
  }

  /** A token is replaced by its own decoding, and the scan resumes right
      after it: what follows is decoded independently of how the token fared. */
  lemma DecodeHeaderValueToken(env: Env, w: EncodedWord, rest: string)
    requires WellFormed(w)
    ensures DecodeHeaderValue(env, Token(w) + rest) == DecodeWord(env, w) + DecodeHeaderValue(env, rest)
  {
    EncodedWordAtToken(w, rest);
    assert (Token(w) + rest)[|Token(w)|..] == rest;
  }

  /** Plain text, then a token: both are handled, and the scan goes on with
      the rest. */
  lemma DecodeHeaderValueSegment(env: Env, a: string, w: EncodedWord, rest: string)
    requires WellFormed(w) && Plain(a, Token(w) + rest)
    ensures DecodeHeaderValue(env, a + (Token(w) + rest))
            == a + (DecodeWord(env, w) + DecodeHeaderValue(env, rest))
  {
    DecodeHeaderValuePlainPrefix(env, a, Token(w) + rest);
    DecodeHeaderValueToken(env, w, rest);
  }

  /** Two tokens separated by plain text decode independently: a token whose
      decoding fails does not disturb its neighbours. */
  lemma DecodeHeaderValueTwoTokens(env: Env, a: string, w1: EncodedWord, b: string, w2: EncodedWord, c: string)
    requires WellFormed(w1) && WellFormed(w2)
    requires Plain(a, Token(w1) + (b + (Token(w2) + c)))
    requires Plain(b, Token(w2) + c)
    ensures DecodeHeaderValue(env, a + (Token(w1) + (b + (Token(w2) + c))))
            == a + (DecodeWord(env, w1) + (b + (DecodeWord(env, w2) + DecodeHeaderValue(env, c))))
  {
    DecodeHeaderValueSegment(env, a, w1, b + (Token(w2) + c));
    DecodeHeaderValueSegment(env, b, w2, c);
  }
}
