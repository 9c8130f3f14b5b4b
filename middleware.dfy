/**
 * The page session gate that runs in front of every page request. It cannot run the
 * signature check, so it only takes the token from the `token` cookie apart: three
 * dot-separated segments (compact serialization, section 7.1 of RFC 7515), the middle
 * one base64url-decoded (section 5 of RFC 4648) and parsed as JSON, the `exp` claim
 * (section 4.1.4 of RFC 7519) compared with the clock, and the `userId` and `username`
 * claims required. `atob`, `JSON.parse` and `Date.now()` are parameters.
 */
module Middleware {
  import opened Wrappers
  import opened Json

  // ---------------------------------------------------------------------------
  // base64url to base64

  /** `s` with every occurrence of `from` replaced by `to` (a global `String.replace`). */
  function Replaced(s: string, from: char, to: char): (r: string)
    ensures |r| == |s|
    ensures forall i :: 0 <= i < |s| ==> r[i] == (if s[i] == from then to else s[i])
  {
    if s == [] then [] else [if s[0] == from then to else s[0]] + Replaced(s[1..], from, to)
  }

  /** The scan behind `s.replace(/from/g, to)`: one character at a time, left to right. */
  method ReplaceAll(s: string, from: char, to: char) returns (r: string)
    ensures r == Replaced(s, from, to)
  {
    r := "";
    var i := 0;
    while i < |s|
      invariant 0 <= i <= |s|
      invariant |r| == i
      invariant forall k :: 0 <= k < i ==> r[k] == (if s[k] == from then to else s[k])
    {
      r := r + [if s[i] == from then to else s[i]];
      i := i + 1;
    }
  }

  /** The base64 character that a base64url character stands for. */
  function StdChar(c: char): char
  {
    if c == '-' then '+' else if c == '_' then '/' else c
  }

  /** The `=` padding appended for an input of length `len`. */
  function Padding(len: nat): (p: string)
    requires len % 4 != 1
    ensures (len + |p|) % 4 == 0 && |p| < 3
    ensures forall i :: 0 <= i < |p| ==> p[i] == '='
  {
    if len % 4 == 2 then "==" else if len % 4 == 3 then "=" else ""
  }

  /**
   * The string `base64UrlDecode` hands to `atob`: the alphabet mapped back to base64
   * and the padding restored, or `None` where it throws (a length of 1 modulo 4,
   * which no base64 encoding has).
   */
  function Base64UrlToBase64(input: string): (r: Option<string>)
    ensures r.None? <==> |input| % 4 == 1
    ensures r.Some? ==> |r.value| % 4 == 0 && |input| <= |r.value| < |input| + 3
    ensures r.Some? ==> forall i :: 0 <= i < |input| ==> r.value[i] == StdChar(input[i])
    ensures r.Some? ==> forall i :: |input| <= i < |r.value| ==> r.value[i] == '='
  {
    if |input| % 4 == 1 then None
    else Some(Replaced(Replaced(input, '-', '+'), '_', '/') + Padding(|input|))
  }

  /** `base64UrlDecode`: two global replacements, then padding by the length modulo 4, then `atob`. */
  method Base64UrlDecode(input: string, atob: string -> Option<string>) returns (r: Option<string>)
    ensures Base64UrlToBase64(input).None? ==> r.None?
    ensures Base64UrlToBase64(input).Some? ==> r == atob(Base64UrlToBase64(input).value)
  {
    var output := ReplaceAll(input, '-', '+');
    output := ReplaceAll(output, '_', '/');
    assert output == Replaced(Replaced(input, '-', '+'), '_', '/') && |output| == |input|;
    var pad := |output| % 4;
    if pad == 2 {
      output := output + "==";
    } else if pad == 3 {
      output := output + "=";
    } else if pad != 0 {
      return None;
    }
    assert output == Replaced(Replaced(input, '-', '+'), '_', '/') + Padding(|input|);
    r := atob(output);
  }

  // ---------------------------------------------------------------------------
  // String.split on a single character

  /** Number of occurrences of `c` in `s`. */
  function Count(s: string, c: char): nat
  {
    if s == [] then 0 else (if s[0] == c then 1 else 0) + Count(s[1..], c)
  }

  /** The parts glued back together with `sep` between them. */
  function Join(parts: seq<string>, sep: char): string
    requires |parts| >= 1
  {
    if |parts| == 1 then parts[0] else parts[0] + [sep] + Join(parts[1..], sep)
  }

  /** `s.split(sep)`: one more part than there are separators, none containing one. */
  function Split(s: string, sep: char): (parts: seq<string>)
    ensures |parts| == Count(s, sep) + 1
    ensures forall i :: 0 <= i < |parts| ==> sep !in parts[i]
    ensures Join(parts, sep) == s
  {
    if s == [] then [""]
    else
      var rest := Split(s[1..], sep);
      if s[0] == sep then
        assert ([""] + rest)[1..] == rest;
        [""] + rest
      else
        var parts := [[s[0]] + rest[0]] + rest[1..];
        assert parts[1..] == rest[1..];
        assert |rest| > 1 ==> Join(rest, sep) == rest[0] + [sep] + Join(rest[1..], sep);
        assert s == [s[0]] + s[1..];
        parts
  }

  lemma {:induction false} SplitNoSeparator(s: string, sep: char)
    requires sep !in s
    ensures Split(s, sep) == [s]
  {
    if s != [] {
      SplitNoSeparator(s[1..], sep);
    }
  }

  lemma {:induction false} SplitAtFirstSeparator(x: string, sep: char, y: string)
    requires sep !in x
    ensures Split(x + [sep] + y, sep) == [x] + Split(y, sep)
  {
    if x == [] {
      assert x + [sep] + y == [sep] + y;
      assert ([sep] + y)[1..] == y;
    } else {
      assert (x + [sep] + y)[1..] == x[1..] + [sep] + y;
      SplitAtFirstSeparator(x[1..], sep, y);
      assert x == [x[0]] + x[1..];
    }
  }

  /** Splitting undoes joining when no part contains the separator. */
  lemma {:induction false} SplitJoin(parts: seq<string>, sep: char)
    requires |parts| >= 1
    requires forall i :: 0 <= i < |parts| ==> sep !in parts[i]
    ensures Split(Join(parts, sep), sep) == parts
  {
    if |parts| == 1 {
      SplitNoSeparator(parts[0], sep);
    } else {
      SplitJoin(parts[1..], sep);
      SplitAtFirstSeparator(parts[0], sep, Join(parts[1..], sep));
      assert parts == [parts[0]] + parts[1..];
    }
  }

  /** A token built from three dot-free segments splits back into exactly those segments. */
  lemma ThreeSegments(header: string, payload: string, signature: string)
    requires '.' !in header && '.' !in payload && '.' !in signature
    ensures Split(header + "." + payload + "." + signature, '.') == [header, payload, signature]
  {
    var parts := [header, payload, signature];
    assert Join([signature], '.') == signature;
    assert [payload, signature][1..] == [signature];
    assert Join([payload, signature], '.') == payload + "." + signature;
    assert parts[1..] == [payload, signature];
    assert Join(parts, '.') == header + "." + (payload + "." + signature);
    assert header + "." + (payload + "." + signature) == header + "." + payload + "." + signature;
    SplitJoin(parts, '.');
  }

  // ---------------------------------------------------------------------------
  // decodeJwtPayload

  /** The JSON value in the token's middle segment, or `None` where the source returns or catches into `null`. */
  function ParsedPayload(token: string, atob: string -> Option<string>, parse: string -> Option<Value>): (r: Option<Value>)
    ensures r.Some? ==> Count(token, '.') == 2
    ensures r.Some? ==> |Split(token, '.')[1]| % 4 != 1
  {
    var parts := Split(token, '.');
    if |parts| != 3 then None
    else
      match Base64UrlToBase64(parts[1])
      case None => None
      case Some(b64) =>
        match atob(b64)
        case None => None
        case Some(json) => parse(json)
  }

  /** The expiry test: a truthy payload whose truthy `exp` converts to a number below the clock in seconds. */
  predicate IsExpired(payload: Value, nowMillis: int)
    ensures IsExpired(payload, nowMillis) <==>
      Truthy(payload) && ToNumber(Property(payload, "exp")).Number? && ToNumber(Property(payload, "exp")).n != 0.0
      && ToNumber(Property(payload, "exp")).n * 1000.0 < nowMillis as real
  {
    Truthy(payload) && Truthy(Property(payload, "exp")) && LessThan(Property(payload, "exp"), nowMillis as real / 1000.0) == Some(true)
  }

  /** The expiry test throws: a truthy `exp` that is an object with its own `toString` key. */
  predicate ExpiryCheckThrows(payload: Value, nowMillis: int)
    ensures ExpiryCheckThrows(payload, nowMillis) <==>
      payload.Obj? && Property(payload, "exp").Obj? && "toString" in Property(payload, "exp").fields
  {
    Truthy(payload) && Truthy(Property(payload, "exp")) && LessThan(Property(payload, "exp"), nowMillis as real / 1000.0).None?
  }

  /**
   * `decodeJwtPayload`: the parsed payload unless it has expired, or unless the expiry test
   * throws, which the surrounding `catch` turns into `null`; the signature is never looked at.
   */
  function DecodeJwtPayload(token: string, atob: string -> Option<string>, parse: string -> Option<Value>, nowMillis: int): (r: Option<Value>)
    ensures r.Some? ==> r == ParsedPayload(token, atob, parse) && !IsExpired(r.value, nowMillis) && !ExpiryCheckThrows(r.value, nowMillis)
    ensures r.None? <==> ParsedPayload(token, atob, parse).None? || IsExpired(ParsedPayload(token, atob, parse).value, nowMillis)
                         || ExpiryCheckThrows(ParsedPayload(token, atob, parse).value, nowMillis)
  {
    match ParsedPayload(token, atob, parse)
    case None => None
    case Some(payload) =>
      if Truthy(payload) && Truthy(Property(payload, "exp")) then
        match LessThan(Property(payload, "exp"), nowMillis as real / 1000.0)
        case None => None
        case Some(expired) => if expired then None else Some(payload)
      else Some(payload)
  }

  /** Anything but exactly two dots in the token gives `null`. */
  lemma DecodeNeedsThreeSegments(token: string, atob: string -> Option<string>, parse: string -> Option<Value>, nowMillis: int)
    requires Count(token, '.') != 2
    ensures DecodeJwtPayload(token, atob, parse, nowMillis) == None
  {
  }

  /** A middle segment whose length is 1 modulo 4 is rejected before `atob` is reached. */
  lemma DecodeRejectsImpossibleLength(header: string, payload: string, signature: string,
                                      atob: string -> Option<string>, parse: string -> Option<Value>, nowMillis: int)
    requires '.' !in header && '.' !in payload && '.' !in signature
    requires |payload| % 4 == 1
    ensures DecodeJwtPayload(header + "." + payload + "." + signature, atob, parse, nowMillis) == None
  {
    ThreeSegments(header, payload, signature);
  }

  /** Only the middle segment matters: header and signature can be anything dot-free. */
  lemma DecodeIgnoresHeaderAndSignature(header: string, payload: string, signature: string,
                                        header': string, signature': string,
                                        atob: string -> Option<string>, parse: string -> Option<Value>, nowMillis: int)
    requires '.' !in header && '.' !in payload && '.' !in signature
    requires '.' !in header' && '.' !in signature'
    ensures DecodeJwtPayload(header + "." + payload + "." + signature, atob, parse, nowMillis)
         == DecodeJwtPayload(header' + "." + payload + "." + signature', atob, parse, nowMillis)
  {
    ThreeSegments(header, payload, signature);
    ThreeSegments(header', payload, signature');
  }

  /** A payload with no `exp`, or `exp` equal to 0, is never rejected for expiry. */
  lemma MissingOrZeroExpNeverExpires(token: string, atob: string -> Option<string>, parse: string -> Option<Value>, nowMillis: int)
    requires ParsedPayload(token, atob, parse).Some?
    requires Property(ParsedPayload(token, atob, parse).value, "exp") in {Undefined, Num(0.0)}
    ensures DecodeJwtPayload(token, atob, parse, nowMillis) == ParsedPayload(token, atob, parse)
  {
  }

  /** A numeric non-zero `exp` on an object payload is rejected exactly when it is strictly below now/1000. */
  lemma ExpiryIsStrict(token: string, atob: string -> Option<string>, parse: string -> Option<Value>, nowMillis: int, exp: real)
    requires ParsedPayload(token, atob, parse).Some? && ParsedPayload(token, atob, parse).value.Obj?
    requires Property(ParsedPayload(token, atob, parse).value, "exp") == Num(exp) && exp != 0.0
    ensures DecodeJwtPayload(token, atob, parse, nowMillis).None? <==> exp * 1000.0 < nowMillis as real
  {
  }

  /** An `exp` object carrying its own `toString` key makes the comparison throw, and the token is refused. */
  lemma UnconvertibleExpIsRefused(token: string, atob: string -> Option<string>, parse: string -> Option<Value>, nowMillis: int)
    requires ParsedPayload(token, atob, parse).Some? && ParsedPayload(token, atob, parse).value.Obj?
    requires Property(ParsedPayload(token, atob, parse).value, "exp").Obj?
    requires "toString" in Property(ParsedPayload(token, atob, parse).value, "exp").fields
    ensures DecodeJwtPayload(token, atob, parse, nowMillis) == None
  {
  }

  // ---------------------------------------------------------------------------
  // middleware

  const AuthPage: string := "/auth"

  /** What the gate does with a request. */
  datatype Response = Next | Redirect(location: string)

  predicate IsAsciiAlnum(c: char)
  {
    'A' <= c <= 'Z' || 'a' <= c <= 'z' || '0' <= c <= '9'
  }

  /** Length of the longest suffix of `s` made of ASCII letters and digits. */
  function TrailingAlnum(s: string): (n: nat)
    ensures n <= |s|
    ensures forall i :: |s| - n <= i < |s| ==> IsAsciiAlnum(s[i])
    ensures n < |s| ==> !IsAsciiAlnum(s[|s| - 1 - n])
  {
    if s == [] || !IsAsciiAlnum(s[|s| - 1]) then 0 else 1 + TrailingAlnum(s[..|s| - 1])
  }

  /** The test `/\.[A-Za-z0-9]+$/`, computed from the right-hand end of the path. */
  predicate IsStaticAsset(pathname: string)
    ensures IsStaticAsset(pathname) ==> |pathname| >= 2 && '.' in pathname && IsAsciiAlnum(pathname[|pathname| - 1])
    ensures |pathname| >= 2 && pathname[|pathname| - 2] == '.' && IsAsciiAlnum(pathname[|pathname| - 1]) ==> IsStaticAsset(pathname)
  {
    var n := TrailingAlnum(pathname);
    1 <= n < |pathname| && pathname[|pathname| - 1 - n] == '.'
  }

  /** The pattern read literally: some dot followed by one or more letters or digits up to the end. */
  ghost predicate EndsWithExtension(pathname: string)
  {
    exists k :: 0 <= k < |pathname| - 1 && pathname[k] == '.' &&
      forall i :: k < i < |pathname| ==> IsAsciiAlnum(pathname[i])
  }

  lemma StaticAssetMatchesPattern(pathname: string)
    ensures IsStaticAsset(pathname) <==> EndsWithExtension(pathname)
  {
    var n := TrailingAlnum(pathname);
    if EndsWithExtension(pathname) {
      var k :| 0 <= k < |pathname| - 1 && pathname[k] == '.' &&
        forall i :: k < i < |pathname| ==> IsAsciiAlnum(pathname[i]);
      assert !IsAsciiAlnum(pathname[k]);
      assert n == |pathname| - 1 - k;
    }
    if IsStaticAsset(pathname) {
      assert pathname[|pathname| - 1 - n] == '.';
      assert forall i :: |pathname| - 1 - n < i < |pathname| ==> IsAsciiAlnum(pathname[i]);
    }
  }

  /** The paths the gate lets through without looking at the cookie. */
  predicate IsAllowListed(pathname: string)
    ensures IsAllowListed(pathname) <==>
      pathname in {AuthPage, "/favicon.ico"} || (|pathname| >= 7 && pathname[..7] == "/_next/") || EndsWithExtension(pathname)
  {
    StaticAssetMatchesPattern(pathname);
    pathname == AuthPage || "/_next/" <= pathname || pathname == "/favicon.ico" || IsStaticAsset(pathname)
  }

  /** A session the gate accepts: a non-empty cookie whose payload decodes, is truthy and carries truthy `userId` and `username`. */
  ghost predicate HasSession(tokenCookie: Option<string>, atob: string -> Option<string>, parse: string -> Option<Value>, nowMillis: int)
  {
    exists payload: Value ::
      && tokenCookie.Some? && tokenCookie.value != ""
      && DecodeJwtPayload(tokenCookie.value, atob, parse, nowMillis) == Some(payload)
      && Truthy(payload) && Truthy(Property(payload, "userId")) && Truthy(Property(payload, "username"))
  }

  /** `middleware`: forward allow-listed paths; forward the rest only with an accepted session, else redirect to the auth page. */
  function Middleware(pathname: string, tokenCookie: Option<string>,
                      atob: string -> Option<string>, parse: string -> Option<Value>, nowMillis: int): (r: Response)
    ensures r == Next || r == Redirect(AuthPage)
    ensures IsAllowListed(pathname) ==> r == Next
    ensures !IsAllowListed(pathname) ==> (r == Next <==> HasSession(tokenCookie, atob, parse, nowMillis))
  {
    if IsAllowListed(pathname) then Next
    else if tokenCookie.None? || tokenCookie.value == "" then Redirect(AuthPage)
    else
      var decoded := DecodeJwtPayload(tokenCookie.value, atob, parse, nowMillis);
      if decoded.None? || !Truthy(decoded.value) then Redirect(AuthPage)
      else if !Truthy(Property(decoded.value, "userId")) || !Truthy(Property(decoded.value, "username")) then Redirect(AuthPage)
      else Next
  }

  /** A guarded page is only reached with a three-segment, unexpired token. */
  lemma ForwardedTokenIsWellShaped(pathname: string, tokenCookie: Option<string>,
                                   atob: string -> Option<string>, parse: string -> Option<Value>, nowMillis: int)
    requires !IsAllowListed(pathname)
    requires Middleware(pathname, tokenCookie, atob, parse, nowMillis) == Next
    ensures tokenCookie.Some? && Count(tokenCookie.value, '.') == 2
    ensures ParsedPayload(tokenCookie.value, atob, parse).Some?
    ensures !IsExpired(ParsedPayload(tokenCookie.value, atob, parse).value, nowMillis)
  {
  }

  /** A guarded page asked for with a token whose `exp` cannot be converted to a number is redirected to the auth page. */
  lemma UnconvertibleExpRedirects(pathname: string, token: string,
                                  atob: string -> Option<string>, parse: string -> Option<Value>, nowMillis: int)
    requires !IsAllowListed(pathname)
    requires ParsedPayload(token, atob, parse).Some? && ParsedPayload(token, atob, parse).value.Obj?
    requires Property(ParsedPayload(token, atob, parse).value, "exp").Obj?
    requires "toString" in Property(ParsedPayload(token, atob, parse).value, "exp").fields
    ensures Middleware(pathname, Some(token), atob, parse, nowMillis) == Redirect(AuthPage)
  {
    UnconvertibleExpIsRefused(token, atob, parse, nowMillis);
  }

  /** The gate's decision does not depend on the signature segment: a forged signature passes as well as the real one. */
  lemma GateIgnoresSignature(pathname: string, header: string, payload: string, signature: string, forged: string,
                             atob: string -> Option<string>, parse: string -> Option<Value>, nowMillis: int)
    requires '.' !in header && '.' !in payload && '.' !in signature && '.' !in forged
    ensures Middleware(pathname, Some(header + "." + payload + "." + signature), atob, parse, nowMillis)
         == Middleware(pathname, Some(header + "." + payload + "." + forged), atob, parse, nowMillis)
  {
    DecodeIgnoresHeaderAndSignature(header, payload, signature, header, forged, atob, parse, nowMillis);
  }
}
