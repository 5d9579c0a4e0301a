/** Content-Type parameters and `detectAndDecodeText`: the charset and
    transfer-encoding dispatch applied to a body. */
module BodyDecoder {
  import opened Wrappers
  import opened Text
  import opened Collaborators
  import opened TransferEncoding

  /** The class `[^;"'\s]`. */
  predicate IsParamChar(c: char) {
    c != ';' && c != '"' && c != '\'' && !IsSpace(c)
  }

  function ParamRunLength(s: string): (n: nat)
    ensures n <= |s|
    ensures forall i :: 0 <= i < n ==> IsParamChar(s[i])
    ensures n < |s| ==> !IsParamChar(s[n])
  {
    if s == [] || !IsParamChar(s[0]) then 0 else 1 + ParamRunLength(s[1..])
  }

  /** The group captured by `<name>["']?([^;"'\s]+)` under the `i` flag, for
      the leftmost position at or after `p` where the pattern matches. The
      optional quote is tried first; without it the run would have to start
      at the quote, which the class excludes, so the run starts after it. */
  function ParamValueFrom(s: string, name: string, p: nat): (v: Option<string>)
    ensures v.Some? ==> v.value != [] && forall i :: 0 <= i < |v.value| ==> IsParamChar(v.value[i])
    decreases |s| - p
  {
    if p + |name| > |s| then None
    else if MatchesAtCI(s, p, name) then
      var q0 := p + |name|;
      var q := if q0 < |s| && (s[q0] == '"' || s[q0] == '\'') then q0 + 1 else q0;
      var n := ParamRunLength(s[q..]);
      if n > 0 then Some(s[q..q + n]) else ParamValueFrom(s, name, p + 1)
    else ParamValueFrom(s, name, p + 1)
  }

  /** `contentType.match(/<name>["']?([^;"'\s]+)/i)?.[1]`. */
  function ParamValue(s: string, name: string): (v: Option<string>)
    ensures v.Some? ==> v.value != [] && forall i :: 0 <= i < |v.value| ==> IsParamChar(v.value[i])
    ensures v.Some? ==> exists q: nat :: MatchesAtCI(s, q, name)
  {
    ParamValueFound(s, name, 0);
    ParamValueFrom(s, name, 0)
  }

  /** A value is only ever found where the name matches. */
  lemma {:induction false} ParamValueFound(s: string, name: string, p: nat)
    ensures ParamValueFrom(s, name, p).Some? ==> exists q: nat :: p <= q && MatchesAtCI(s, q, name)
    decreases |s| - p
  {
    if p + |name| <= |s| && !MatchesAtCI(s, p, name) {
      ParamValueFound(s, name, p + 1);
    } else if p + |name| <= |s| {
      var q0 := p + |name|;
      var q := if q0 < |s| && (s[q0] == '"' || s[q0] == '\'') then q0 + 1 else q0;
      if ParamRunLength(s[q..]) == 0 {
        ParamValueFound(s, name, p + 1);
      }
    }
  }

  /** A parameter written as `name=value` (the value optionally quoted) is
      read back as its value, provided nothing before it can start the name
      and the value is followed by a delimiter or the end. */
  lemma ParamValueReadsWritten(pre: string, name: string, quote: string, v: string, rest: string)
    requires name != [] && IsLower(name)
    requires forall i :: 0 <= i < |pre| ==> ToLowerChar(pre[i]) != name[0]
    requires quote == [] || quote == "\"" || quote == "'"
    requires v != [] && forall i :: 0 <= i < |v| ==> IsParamChar(v[i])
    requires rest == [] || !IsParamChar(rest[0])
    ensures ParamValue(pre + name + quote + v + rest, name) == Some(v)
  {
    var t := v + rest;
    var u := quote + t;
    var s := pre + name + u;
    assert s == pre + name + quote + v + rest by {
      Assoc(quote, v, rest);
      Assoc(pre + name, quote, t);
      Assoc(pre + name + quote, v, rest);
    }
    PrefixCannotStart(pre, name, u);
    NameMatches(pre, name, u);
    ValueAfterQuote(pre + name, quote, v, rest);
    ParamRunIsValue(v, rest);
    ParamValueOfPrefix(s, |pre|, name, |quote|, v, rest);
  }

  lemma PrefixCannotStart(pre: string, name: string, u: string)
    requires name != []
    requires forall i :: 0 <= i < |pre| ==> ToLowerChar(pre[i]) != name[0]
    ensures forall i :: 0 <= i < |pre| ==> NoStartAt(pre + name + u, name, i)
  {
    var s := pre + name + u;
    forall i | 0 <= i < |pre| ensures NoStartAt(s, name, i) {
      assert s[i] == pre[i];
    }
  }

  lemma NameMatches(pre: string, name: string, u: string)
    requires IsLower(name)
    ensures MatchesAtCI(pre + name + u, |pre|, name)
  {
    var s, p := pre + name + u, |pre|;
    forall k | 0 <= k < |name| ensures ToLowerChar(s[p + k]) == name[k] {
      assert s[p + k] == name[k];
    }
  }

  /** The optional quote is skipped exactly when it is there. */
  lemma ValueAfterQuote(head: string, quote: string, v: string, rest: string)
    requires quote == [] || quote == "\"" || quote == "'"
    requires v != [] && IsParamChar(v[0])
    ensures var s, q0 := head + (quote + (v + rest)), |head|;
            q0 < |s| && (s[q0] == '"' || s[q0] == '\'' <==> quote != []) && s[q0 + |quote|..] == v + rest
  {
    var u := quote + (v + rest);
    var s := head + u;
    assert s[|head|..] == u;
    assert u[|quote|..] == v + rest;
    assert s[|head|] == u[0];
    if quote == [] {
      assert u[0] == v[0];
    }
  }

  /** The leftmost match, once nothing before it can start the name. */
  lemma ParamValueOfPrefix(s: string, p: nat, name: string, skip: nat, v: string, rest: string)
    requires name != [] && p + |name| + skip <= |s|
    requires forall i :: 0 <= i < p ==> NoStartAt(s, name, i)
    requires MatchesAtCI(s, p, name)
    requires skip <= 1 && (skip == 1 <==> p + |name| < |s| && (s[p + |name|] == '"' || s[p + |name|] == '\''))
    requires v != [] && s[p + |name| + skip..] == v + rest && ParamRunLength(v + rest) == |v|
    ensures ParamValue(s, name) == Some(v)
  {
    assert s[p + |name| + skip..][..|v|] == v;
    ParamValueAt(s, name, p, skip, |v|);
    ParamValueSkips(s, name, 0, p);
  }

  /** Where the name matches and a non-empty run follows the optional
      quote, that run is the value. */
  lemma ParamValueAt(s: string, name: string, p: nat, skip: nat, n: nat)
    requires p + |name| + skip <= |s| && MatchesAtCI(s, p, name)
    requires skip <= 1 && (skip == 1 <==> p + |name| < |s| && (s[p + |name|] == '"' || s[p + |name|] == '\''))
    requires 0 < n && ParamRunLength(s[p + |name| + skip..]) == n
    ensures ParamValueFrom(s, name, p) == Some(s[p + |name| + skip..][..n])
  {
    var q := p + |name| + skip;
    assert s[q..q + n] == s[q..][..n];
  }

  lemma ParamRunIsValue(v: string, rest: string)
    requires forall i :: 0 <= i < |v| ==> IsParamChar(v[i])
    requires rest == [] || !IsParamChar(rest[0])
    ensures ParamRunLength(v + rest) == |v|
  {
    assert forall i :: 0 <= i < |v| ==> (v + rest)[i] == v[i];
    assert rest != [] ==> (v + rest)[|v|] == rest[0];
  }

  lemma {:induction false} ParamValueSkips(s: string, name: string, p: nat, m: nat)
    requires name != [] && p <= m && m + |name| <= |s|
    requires forall i :: p <= i < m ==> NoStartAt(s, name, i)
    ensures ParamValueFrom(s, name, p) == ParamValueFrom(s, name, m)
    decreases m - p
  {
    if p < m {
      ParamValueSkips(s, name, p, m - 1);
      ParamValueMiss(s, name, m - 1);
    }
  }

  /** Where the name does not match, the search moves on. */
  lemma ParamValueMiss(s: string, name: string, p: nat)
    requires name != [] && p + |name| <= |s| && NoStartAt(s, name, p)
    ensures ParamValueFrom(s, name, p) == ParamValueFrom(s, name, p + 1)
  {
    assert !MatchesAtCI(s, p, name);
  }

  /** The name cannot start at position `i`. */
  predicate NoStartAt(s: string, name: string, i: nat)
    requires name != [] && i < |s|
  {
    ToLowerChar(s[i]) != name[0]
  }

  /** The charset a body is decoded with: the lower-cased `charset=`
      parameter of its Content-Type, `utf-8` when there is none. */
  function Charset(contentType: Option<string>): (cs: string)
    ensures cs != []
    ensures contentType.None? || ParamValue(contentType.value, "charset=").None? ==> cs == "utf-8"
    ensures contentType.Some? && ParamValue(contentType.value, "charset=").Some? ==>
              cs == ToLower(ParamValue(contentType.value, "charset=").value)
  {
    match contentType
    case None => "utf-8"
    case Some(ct) =>
      match ParamValue(ct, "charset=")
      case None => "utf-8"
      case Some(v) => ToLower(v)
  }

  /** `Buffer.from(text, 'binary')`: the low 8 bits of every character. */
  function BinaryBytes(text: string): (bytes: seq<byte>)
    ensures |bytes| == |text|
  {
    seq(|text|, i requires 0 <= i < |text| => LowByte(text[i]))
  }

  predicate IsTransferEncoding(encoding: Option<string>, name: string) {
    encoding.Some? && ToLower(encoding.value) == name
  }

  /** `detectAndDecodeText(text, contentType, encoding)`. Only the
      quoted-printable path can fail: its charset conversion is not wrapped
      in a `try`. The base64 path and the re-decoding of 8-bit text fall
      back to the undecoded text. */
  function DetectAndDecodeText(env: Env, text: string, contentType: Option<string>, encoding: Option<string>): (r: Result<string>)
    ensures text == [] ==> r == Ok([])
    ensures r.Err? ==> IsTransferEncoding(encoding, "quoted-printable")
    ensures text != [] && IsTransferEncoding(encoding, "quoted-printable") ==>
              r == DecodeQuotedPrintable(env, text, Charset(contentType))
    ensures text != [] && !IsTransferEncoding(encoding, "quoted-printable") && !IsTransferEncoding(encoding, "base64")
            && (Charset(contentType) == "utf-8" || !env.encodingExists(Charset(contentType)))
            ==> r == Ok(text)
    ensures text != [] && !IsTransferEncoding(encoding, "quoted-printable") && !IsTransferEncoding(encoding, "base64")
            && Charset(contentType) != "utf-8" && env.encodingExists(Charset(contentType))
            ==> r == Ok(match env.decode(BinaryBytes(text), Charset(contentType))
                        case Ok(decoded) => decoded
                        case Err(_) => text)
    ensures text != [] && IsTransferEncoding(encoding, "base64") ==>
              r == Ok(DecodeBase64(env, text, Charset(contentType)))
  {
    if text == [] then Ok([])
    else
      var charset := Charset(contentType);
      if IsTransferEncoding(encoding, "quoted-printable") then
        DecodeQuotedPrintable(env, text, charset)
      else if IsTransferEncoding(encoding, "base64") then
        Ok(DecodeBase64(env, text, charset))
      else if charset != "utf-8" && env.encodingExists(charset) then
        match env.decode(BinaryBytes(text), charset)
        case Ok(decoded) => Ok(decoded)
        case Err(_) => Ok(text)
      else Ok(text)
  }
}
