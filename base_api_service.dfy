/**
 * The client's `BaseApiService`: the URL a request goes to, with its query
 * string of form-encoded values, and how a response is classified by its
 * status code.
 */
module BaseApiService {
  import opened Wrappers
  import opened Text
  import opened Decimal

  type Byte = b: int | 0 <= b < 256

  // ---------------------------------------------------------------------------
  // UTF-8
  // ---------------------------------------------------------------------------

  /** The UTF-8 encoding of one Unicode scalar value. */
  function Utf8(c: char): (r: seq<Byte>)
    ensures 1 <= |r| <= 4
    ensures |r| == 1 <==> c as int < 0x80
    ensures |r| == 1 ==> r[0] == c as int
  {
    var n := c as int;
    if n < 0x80 then [n]
    else if n < 0x800 then [0xC0 + n / 64, 0x80 + n % 64]
    else if n < 0x10000 then [0xE0 + n / 4096, 0x80 + (n / 64) % 64, 0x80 + n % 64]
    else [0xF0 + n / 262144, 0x80 + (n / 4096) % 64, 0x80 + (n / 64) % 64, 0x80 + n % 64]
  }

  /** The code point a well-formed UTF-8 sequence of one to four bytes stands for. */
  function CodePoint(bs: seq<Byte>): int
    requires 1 <= |bs| <= 4
  {
    var b0: int := bs[0];
    if |bs| == 1 then b0
    else
      var b1: int := bs[1];
      if |bs| == 2 then (b0 - 0xC0) * 64 + (b1 - 0x80)
      else
        var b2: int := bs[2];
        if |bs| == 3 then (b0 - 0xE0) * 4096 + (b1 - 0x80) * 64 + (b2 - 0x80)
        else
          var b3: int := bs[3];
          (b0 - 0xF0) * 262144 + (b1 - 0x80) * 4096 + (b2 - 0x80) * 64 + (b3 - 0x80)
  }

  lemma SplitBy64(n: nat)
    ensures n == (n / 64) * 64 + n % 64 && 0 <= n % 64 < 64
  {
  }

  /** Decoding a character's UTF-8 bytes gives back the character, and the length follows its range. */
  lemma Utf8CodePoint(c: char)
    ensures CodePoint(Utf8(c)) == c as int
    ensures |Utf8(c)| == (if c as int < 0x80 then 1 else if c as int < 0x800 then 2 else if c as int < 0x10000 then 3 else 4)
  {
    var n := c as int;
    if n >= 0x80 {
      var n1 := n / 64;
      var n2 := n1 / 64;
      var n3 := n2 / 64;
      SplitBy64(n);
      SplitBy64(n1);
      SplitBy64(n2);
      assert n / 4096 == n2 && n / 262144 == n3;
      assert (n / 64) % 64 == n1 % 64 && (n / 4096) % 64 == n2 % 64;
      if n < 0x800 {
        assert CodePoint(Utf8(c)) == n1 * 64 + n % 64;
      } else if n < 0x10000 {
        assert CodePoint(Utf8(c)) == n2 * 4096 + (n1 % 64) * 64 + n % 64;
        assert n2 * 4096 + (n1 % 64) * 64 == (n2 * 64 + n1 % 64) * 64;
      } else {
        assert CodePoint(Utf8(c)) == n3 * 262144 + (n2 % 64) * 4096 + (n1 % 64) * 64 + n % 64;
        assert n3 * 262144 + (n2 % 64) * 4096 + (n1 % 64) * 64 == ((n3 * 64 + n2 % 64) * 64 + n1 % 64) * 64;
      }
    }
  }

  /** The UTF-8 encoding of a string. */
  function Utf8String(s: string): seq<Byte> {
    if s == [] then [] else Utf8(s[0]) + Utf8String(s[1..])
  }

  // ---------------------------------------------------------------------------
  // `URLEncoder.encode(value, UTF_8)`
  // ---------------------------------------------------------------------------

  /** The characters the form encoding writes as they are. */
  predicate KeptAsIs(c: char) {
    ('a' <= c <= 'z') || ('A' <= c <= 'Z') || ('0' <= c <= '9') || c == '.' || c == '-' || c == '*' || c == '_'
  }

  /** An upper-case hexadecimal digit. */
  function HexDigit(d: int): char
    requires 0 <= d < 16
  {
    if d < 10 then ('0' as int + d) as char else ('A' as int + d - 10) as char
  }

  /** The value of a hexadecimal digit of either case. */
  function HexValue(c: char): Option<int> {
    if '0' <= c <= '9' then Some(c as int - '0' as int)
    else if 'A' <= c <= 'F' then Some(c as int - 'A' as int + 10)
    else if 'a' <= c <= 'f' then Some(c as int - 'a' as int + 10)
    else None
  }

  /** `%XY` for each byte. */
  function PercentBytes(bs: seq<Byte>): (r: string)
    ensures |r| == 3 * |bs|
  {
    if bs == [] then "" else ['%', HexDigit(bs[0] / 16), HexDigit(bs[0] % 16)] + PercentBytes(bs[1..])
  }

  /** One character of a form-encoded value: kept, space as `+`, anything else as its UTF-8 bytes in `%XY` form. */
  function EncodeChar(c: char): string {
    if KeptAsIs(c) then [c] else if c == ' ' then "+" else PercentBytes(Utf8(c))
  }

  /** `URLEncoder.encode(s, StandardCharsets.UTF_8)`. */
  function Encode(s: string): string {
    if s == [] then "" else EncodeChar(s[0]) + Encode(s[1..])
  }

  /** The bytes of a form-encoded text, as a form decoder reads them back; None where it is malformed. */
  function DecodeBytes(s: string): Option<seq<Byte>>
    decreases |s|
  {
    if s == [] then Some([])
    else if s[0] == '+' then Prepend([0x20], DecodeBytes(s[1..]))
    else if s[0] == '%' then
      if |s| >= 3 && HexValue(s[1]).Some? && HexValue(s[2]).Some? then
        Prepend([HexValue(s[1]).value * 16 + HexValue(s[2]).value], DecodeBytes(s[3..]))
      else None
    else if s[0] as int < 0x80 then Prepend([s[0] as int], DecodeBytes(s[1..]))
    else None
  }

  function Prepend(bs: seq<Byte>, rest: Option<seq<Byte>>): Option<seq<Byte>> {
    if rest.Some? then Some(bs + rest.value) else None
  }

  lemma HexDigitValue(d: int)
    requires 0 <= d < 16
    ensures HexValue(HexDigit(d)) == Some(d)
  {
  }

  /** One `%XY` triple decodes to its byte. */
  lemma DecodeOneByte(b: Byte, rest: string)
    ensures DecodeBytes(['%', HexDigit(b / 16), HexDigit(b % 16)] + rest) == Prepend([b], DecodeBytes(rest))
  {
    var s := ['%', HexDigit(b / 16), HexDigit(b % 16)] + rest;
    HexDigitValue(b / 16);
    HexDigitValue(b % 16);
    assert s[0] == '%' && s[1] == HexDigit(b / 16) && s[2] == HexDigit(b % 16);
    assert s[3..] == rest;
    assert b / 16 * 16 + b % 16 == b;
  }

  /** Prepending a byte, then more bytes, is prepending them together. */
  lemma PrependCons(b: Byte, bs: seq<Byte>, rest: Option<seq<Byte>>)
    ensures Prepend([b], Prepend(bs, rest)) == Prepend([b] + bs, rest)
  {
    if rest.Some? {
      assert [b] + (bs + rest.value) == ([b] + bs) + rest.value;
    }
  }

  lemma {:induction false} DecodePercent(bs: seq<Byte>, rest: string)
    ensures DecodeBytes(PercentBytes(bs) + rest) == Prepend(bs, DecodeBytes(rest))
  {
    if bs == [] {
      assert PercentBytes(bs) + rest == rest;
      if DecodeBytes(rest).Some? {
        assert bs + DecodeBytes(rest).value == DecodeBytes(rest).value;
      }
    } else {
      var b := bs[0];
      var head: string := ['%', HexDigit(b / 16), HexDigit(b % 16)];
      var tail := PercentBytes(bs[1..]) + rest;
      assert PercentBytes(bs) + rest == head + tail;
      DecodeOneByte(b, tail);
      DecodePercent(bs[1..], rest);
      PrependCons(b, bs[1..], DecodeBytes(rest));
      assert [b] + bs[1..] == bs;
    }
  }

  lemma DecodeEncodeChar(c: char, rest: string)
    ensures DecodeBytes(EncodeChar(c) + rest) == Prepend(Utf8(c), DecodeBytes(rest))
  {
    if KeptAsIs(c) {
      assert ([c] + rest)[1..] == rest;
    } else if c == ' ' {
      assert ("+" + rest)[1..] == rest;
    } else {
      DecodePercent(Utf8(c), rest);
    }
  }

  /** Form decoding reads back exactly the UTF-8 bytes of the encoded value. */
  lemma {:induction false} FormRoundTrip(s: string)
    ensures DecodeBytes(Encode(s)) == Some(Utf8String(s))
  {
    if s == [] {
    } else {
      DecodeEncodeChar(s[0], Encode(s[1..]));
      FormRoundTrip(s[1..]);
    }
  }

  /** A character that can appear in an encoded value. */
  predicate EncodedChar(c: char) {
    KeptAsIs(c) || c == '+' || c == '%' || ('0' <= c <= '9') || ('A' <= c <= 'F')
  }

  lemma {:induction false} PercentBytesChars(bs: seq<Byte>)
    ensures forall j :: 0 <= j < |PercentBytes(bs)| ==> EncodedChar(PercentBytes(bs)[j])
  {
    if bs != [] {
      PercentBytesChars(bs[1..]);
      var head: string := ['%', HexDigit(bs[0] / 16), HexDigit(bs[0] % 16)];
      assert PercentBytes(bs) == head + PercentBytes(bs[1..]);
    }
  }

  /**
   * An encoded value holds only letters, digits, `.-*_`, `+` and `%`: never
   * `&`, `=` or `#`, so it cannot end its pair or the query early.
   */
  lemma {:induction false} EncodeChars(s: string)
    ensures forall j :: 0 <= j < |Encode(s)| ==> EncodedChar(Encode(s)[j])
  {
    if s != [] {
      EncodeChars(s[1..]);
      if !KeptAsIs(s[0]) && s[0] != ' ' {
        PercentBytesChars(Utf8(s[0]));
      }
      assert Encode(s) == EncodeChar(s[0]) + Encode(s[1..]);
    }
  }

  // ---------------------------------------------------------------------------
  // `buildUrlWithQuery`
  // ---------------------------------------------------------------------------

  /** A query parameter: the key and the value of one map entry. */
  type Param = (string, string)

  /** `key=` followed by the encoded value; the key is written raw. */
  function PairText(p: Param): string {
    p.0 + "=" + Encode(p.1)
  }

  function PairTexts(q: seq<Param>): (r: seq<string>)
    ensures |r| == |q| && forall i :: 0 <= i < |q| ==> r[i] == PairText(q[i])
  {
    seq(|q|, i requires 0 <= i < |q| => PairText(q[i]))
  }

  /** `path != null ? path : ""`. */
  function PathOrEmpty(path: Option<string>): string {
    if path.Some? then path.value else ""
  }

  /**
   * The URL the builder returns: the base and the path, then for a non-empty
   * map `?` and the `key=value` pairs joined by `&`, in the map's iteration
   * order.
   */
  function UrlWithQuery(baseUrl: string, path: Option<string>, queryParams: Option<seq<Param>>): string {
    baseUrl + PathOrEmpty(path)
    + if queryParams.Some? && queryParams.value != [] then "?" + Join(PairTexts(queryParams.value), "&") else ""
  }

  /** The builder's text while its loop runs: each pair followed by `&`. */
  function Terminated(parts: seq<string>): string {
    if parts == [] then "" else Terminated(parts[..|parts| - 1]) + parts[|parts| - 1] + "&"
  }

  lemma {:induction false} TerminatedIsJoin(parts: seq<string>)
    requires parts != []
    ensures Terminated(parts) == Join(parts, "&") + "&"
  {
    var init := parts[..|parts| - 1];
    if init == [] {
      assert parts == [parts[0]];
    } else {
      TerminatedIsJoin(init);
      JoinSnoc(init, parts[|parts| - 1], "&");
      assert init + [parts[|parts| - 1]] == parts;
    }
  }

  lemma TerminatedStep(q: seq<Param>, i: int)
    requires 0 <= i < |q|
    ensures Terminated(PairTexts(q[..i + 1])) == Terminated(PairTexts(q[..i])) + PairText(q[i]) + "&"
  {
    var ps := PairTexts(q[..i + 1]);
    assert ps[..|ps| - 1] == PairTexts(q[..i]);
  }

  /** Appending a key, `=`, a value and `&` to the text so far appends that pair to the pairs so far. */
  lemma AppendStep(prefix: string, url: string, done: string, key: string, value: string)
    requires url == prefix + done
    ensures url + key + "=" + value + "&" == prefix + (done + (key + "=" + value) + "&")
  {
  }

  /** The `forEach` over the entries: each pair is appended with a `&` after it. */
  method AppendPairs(prefix: string, q: seq<Param>) returns (url: string)
    ensures url == prefix + Terminated(PairTexts(q))
  {
    url := prefix;
    var i := 0;
    while i < |q|
      invariant 0 <= i <= |q|
      invariant url == prefix + Terminated(PairTexts(q[..i]))
    {
      TerminatedStep(q, i);
      AppendStep(prefix, url, Terminated(PairTexts(q[..i])), q[i].0, Encode(q[i].1));
      url := url + q[i].0 + "=" + Encode(q[i].1) + "&";
      i := i + 1;
    }
    assert q[..i] == q;
  }

  /**
   * `buildUrlWithQuery`: for a non-empty map, `?` and the pairs each followed
   * by `&`, and then the last `&` deleted.
   */
  method BuildUrlWithQuery(baseUrl: string, path: Option<string>, queryParams: Option<seq<Param>>)
    returns (url: string)
    ensures url == UrlWithQuery(baseUrl, path, queryParams)
  {
    url := baseUrl + PathOrEmpty(path);
    if queryParams.Some? && queryParams.value != [] {
      var q := queryParams.value;
      ghost var start := url + "?";
      url := AppendPairs(url + "?", q);
      ghost var joined := Join(PairTexts(q), "&");
      TerminatedIsJoin(PairTexts(q));
      assert url == (start + joined) + "&";
      url := url[..|url| - 1];
      assert url == start + joined;
    }
  }

  /** Without a map, or with an empty one, the URL is the base and the path, with no `?`. */
  lemma UrlWithoutQuery(baseUrl: string, path: Option<string>, queryParams: Option<seq<Param>>)
    requires queryParams.None? || queryParams.value == []
    ensures UrlWithQuery(baseUrl, path, queryParams) == baseUrl + PathOrEmpty(path)
    ensures path.None? ==> UrlWithQuery(baseUrl, path, queryParams) == baseUrl
  {
  }

  /** A key that neither ends its pair nor the value's start. */
  predicate PlainKey(k: string) {
    Excludes(k, '&') && Excludes(k, '=')
  }

  /**
   * The query reads back as the map's entries: split on `&` it gives one piece
   * per entry, in order, each the raw key, `=`, and a value that form-decodes
   * to the UTF-8 bytes of the entry's value. The keys must not contain `&` or
   * `=`, since they are not encoded.
   */
  lemma QueryRoundTrip(q: seq<Param>)
    requires q != [] && forall i :: 0 <= i < |q| ==> PlainKey(q[i].0)
    ensures |Split(Join(PairTexts(q), "&"), '&')| == |q|
    ensures forall i :: 0 <= i < |q| ==>
      var piece := Split(Join(PairTexts(q), "&"), '&')[i];
      && IndexOfChar(piece, '=') == |q[i].0|
      && piece[..|q[i].0|] == q[i].0
      && DecodeBytes(piece[|q[i].0| + 1..]) == Some(Utf8String(q[i].1))
  {
    var parts := PairTexts(q);
    forall i | 0 <= i < |q| ensures Excludes(parts[i], '&') {
      EncodeChars(q[i].1);
    }
    SplitJoin(parts, '&');
    forall i | 0 <= i < |q|
      ensures IndexOfChar(parts[i], '=') == |q[i].0|
      ensures parts[i][..|q[i].0|] == q[i].0
      ensures DecodeBytes(parts[i][|q[i].0| + 1..]) == Some(Utf8String(q[i].1))
    {
      PairReadsBack(q[i]);
    }
  }

  /** One pair reads back: the first `=` ends the raw key, and the rest decodes to the value's bytes. */
  lemma PairReadsBack(p: Param)
    requires PlainKey(p.0)
    ensures IndexOfChar(PairText(p), '=') == |p.0|
    ensures PairText(p)[..|p.0|] == p.0
    ensures DecodeBytes(PairText(p)[|p.0| + 1..]) == Some(Utf8String(p.1))
  {
    var k, value := p.0, Encode(p.1);
    var text := k + "=" + value;
    assert text[|k|] == '=';
    assert text[..|k|] == k;
    assert forall j :: 0 <= j < |k| ==> text[j] == k[j];
    IndexOfCharAt(text, '=', |k|);
    assert text[|k| + 1..] == value;
    FormRoundTrip(p.1);
  }

  /** A space becomes `+` and `&` is escaped as `%26`, so a value with both stays one parameter. */
  lemma EncodeExamples()
    ensures Encode("a b") == "a+b"
    ensures Encode("&") == "%26"
    ensures Encode("ż") == "%C5%BC"
  {
    assert Utf8('&') == [0x26];
    assert Utf8('ż') == [0xC5, 0xBC];
  }

  // ---------------------------------------------------------------------------
  // `handleResponse`
  // ---------------------------------------------------------------------------

  /** What `handleResponse` does with a response: no value, the body handed to the JSON reader, or an error. */
  datatype Outcome = NoValue | ReadBody(body: string) | UnexpectedError(message: string)

  /** The 2xx class of section 15.3 of RFC 9110. */
  predicate IsSuccessful(status: int) {
    200 <= status < 300
  }

  const ErrorPrefix: string := "Unexpected error: "

  /** The RuntimeException's message; Java writes a null body as "null". */
  function ErrorMessage(status: int, body: Option<string>): string {
    ErrorPrefix + IntToString(status) + " - " + (if body.Some? then body.value else "null")
  }

  /**
   * `handleResponse`: a 2xx response gives no value when there is no type
   * reference or the body is null or empty, and otherwise its body is read as
   * JSON; any other status is an error naming the status and the body.
   */
  function HandleResponse(status: int, body: Option<string>, hasTypeReference: bool): (r: Outcome)
    ensures r.UnexpectedError? <==> !IsSuccessful(status)
    ensures r.NoValue? <==> IsSuccessful(status) && (!hasTypeReference || body.None? || body.value == "")
    ensures r.ReadBody? ==> hasTypeReference && body == Some(r.body) && r.body != ""
    ensures r.UnexpectedError? ==> r.message == ErrorMessage(status, body)
  {
    if IsSuccessful(status) then
      if !hasTypeReference || body.None? || body.value == "" then NoValue else ReadBody(body.value)
    else UnexpectedError(ErrorMessage(status, body))
  }

  /** The status an error message names: the text between the prefix and the first space after it. */
  function StatusOfMessage(m: string): Option<int> {
    if |m| < |ErrorPrefix| || m[..|ErrorPrefix|] != ErrorPrefix then None
    else
      var rest := m[|ErrorPrefix|..];
      var k := IndexOfChar(rest, ' ');
      if k < 0 then None else ParseLong(rest[..k])
  }

  lemma IntToStringHasNoSpace(n: int)
    ensures Excludes(IntToString(n), ' ')
  {
    if n < 0 {
      assert IntToString(n) == "-" + NatToString(-n);
    }
  }

  /** The status can be read back from the error message, whatever the body. */
  lemma ErrorMessageNamesStatus(status: int, body: Option<string>)
    requires InLongRange(status)
    ensures StatusOfMessage(ErrorMessage(status, body)) == Some(status)
  {
    var m := ErrorMessage(status, body);
    var digits := IntToString(status);
    var rest := digits + " - " + (if body.Some? then body.value else "null");
    assert m == ErrorPrefix + rest;
    assert m[..|ErrorPrefix|] == ErrorPrefix && m[|ErrorPrefix|..] == rest;
    IntToStringHasNoSpace(status);
    assert forall j :: 0 <= j < |digits| ==> rest[j] == digits[j];
    assert rest[|digits|] == ' ';
    assert IndexOfChar(rest, ' ') == |digits|;
    assert rest[..|digits|] == digits;
    ParseLongToString(status);
  }

  /** The edges of the success class: 200 and 299 succeed, 199 and 300 are errors. */
  lemma StatusClassEdges(body: Option<string>, hasTypeReference: bool)
    ensures !HandleResponse(200, body, hasTypeReference).UnexpectedError?
    ensures !HandleResponse(299, body, hasTypeReference).UnexpectedError?
    ensures HandleResponse(199, body, hasTypeReference).UnexpectedError?
    ensures HandleResponse(300, body, hasTypeReference).UnexpectedError?
  {
  }

  /** An empty 204 body gives no value; a 404 names its status and body. */
  lemma HandleResponseExamples(body: string)
    ensures HandleResponse(204, Some(""), true) == NoValue
    ensures HandleResponse(404, Some(body), true) == UnexpectedError("Unexpected error: 404 - " + body)
  {
    assert NatToString(4) == "4";
    assert NatToString(40) == NatToString(4) + [DigitChar(0)] == "40";
    assert NatToString(404) == NatToString(40) + [DigitChar(4)] == "404";
    assert IntToString(404) == "404";
    var head := ErrorPrefix + "404" + " - ";
    assert head == "Unexpected error: 404 - ";
    assert ErrorMessage(404, Some(body)) == head + body;
  }
}
