/**
 * The magic-auth gate of the tunnel client: for every request arriving
 * through the tunnel it either forwards the request unchanged or answers it
 * itself (the login form, a rejection, or the redirect that sets the signed
 * session cookie) and closes the connection.
 *
 * HMAC-SHA256 (RFC 2104), base64 (section 4 of RFC 4648), email syntax
 * validation, form decoding and the rendering of the login page are not
 * modelled: they are fields of `Primitives`, and the lemmas that need their
 * laws require `Lawful`. The clock is the parameter `now`.
 */
module MagicAuth {

  import opened Wrappers
  import opened PhpStrings
  import Config

  const CookieName := "expose_magic_auth"
  const LoginPath := "/__expose_magic_login"
  /** Seven days, in seconds. */
  const CookieLifetime: nat := 86400 * 7
  const InvalidEmailMessage := "Please enter a valid email address."
  const NotAuthorizedMessage := "This email address is not authorized to access this site."
  const RequestIdHeader := "x-expose-request-id"

  // ---------------------------------------------------------------------------
  // Requests, responses and the abstracted primitives

  /** A header as the request stores it: its name as sent, and its values. */
  datatype Header = Header(name: string, values: seq<string>)

  datatype Request = Request(httpMethod: string, path: string, query: string, headers: seq<Header>, body: string)

  datatype Response = Response(status: nat, headers: seq<(string, string)>, body: string)

  datatype Primitives = Primitives(
    /** hash_hmac('sha256', message, key) as lower-case hex; the key comes first here. */
    hmac: (string, string) -> string,
    base64Encode: string -> string,
    /** base64_decode, with None for its `false`. */
    base64Decode: string -> Option<string>,
    /** filter_var($email, FILTER_VALIDATE_EMAIL) succeeds. */
    isValidEmail: string -> bool,
    /** parse_str of a form-encoded body. */
    parseForm: string -> map<string, string>,
    /** The login page for an optional error and a redirect target. */
    render: (Option<string>, string) -> string)

  predicate IsBase64Char(c: char) {
    ('A' <= c <= 'Z') || ('a' <= c <= 'z') || ('0' <= c <= '9') || c == '+' || c == '/' || c == '='
  }

  predicate IsHexChar(c: char) {
    ('0' <= c <= '9') || ('a' <= c <= 'f')
  }

  predicate IsBase64Text(s: string) {
    forall i :: 0 <= i < |s| ==> IsBase64Char(s[i])
  }

  predicate IsHexText(s: string) {
    forall i :: 0 <= i < |s| ==> IsHexChar(s[i])
  }

  /**
   * What the real primitives guarantee and the proofs rely on: base64
   * decoding inverts encoding, encoding uses only the base64 alphabet and
   * pads a non-empty input to at least four characters, and an HMAC is
   * written in hex digits.
   */
  ghost predicate Lawful(p: Primitives) {
    && (forall s :: p.base64Decode(p.base64Encode(s)) == Some(s))
    && (forall s :: IsBase64Text(p.base64Encode(s)))
    && (forall s :: |s| > 0 ==> |p.base64Encode(s)| >= 4)
    && (forall key, message :: IsHexText(p.hmac(key, message)))
  }

  /** What the gate reads from the configuration: the policy and the process-wide secret. */
  datatype Gate = Gate(magicAuth: Option<string>, secret: string, prims: Primitives)

  /** A policy was configured; the empty policy counts. */
  predicate RequiresAuthentication(g: Gate) {
    g.magicAuth.Some?
  }

  // ---------------------------------------------------------------------------
  // Headers

  /** `$request->getHeaders()[$name]`: the header stored under exactly `name`. */
  function HeaderValues(headers: seq<Header>, name: string): Option<seq<string>>
    decreases |headers|
  {
    if |headers| == 0 then None
    else if headers[0].name == name then Some(headers[0].values)
    else HeaderValues(headers[1..], name)
  }

  /** Header `k` is the first whose name equals `name` up to case. */
  predicate FirstNamed(headers: seq<Header>, name: string, k: int) {
    && 0 <= k < |headers|
    && Lower(headers[k].name) == Lower(name)
    && forall j :: 0 <= j < k ==> Lower(headers[j].name) != Lower(name)
  }

  /** `$request->getHeader($name)`: the header whose name equals `name` up to case. */
  function HeaderValuesIgnoringCase(headers: seq<Header>, name: string): (r: seq<string>)
    ensures |r| > 0 ==> exists k :: 0 <= k < |headers| && Lower(headers[k].name) == Lower(name) && r == headers[k].values
    ensures (forall k :: 0 <= k < |headers| ==> Lower(headers[k].name) != Lower(name)) ==> r == []
    ensures forall k :: FirstNamed(headers, name, k) ==> r == headers[k].values
    decreases |headers|
  {
    if |headers| == 0 then []
    else if Lower(headers[0].name) == Lower(name) then headers[0].values
    else
      var r := HeaderValuesIgnoringCase(headers[1..], name);
      assert forall k :: 0 <= k < |headers| - 1 ==> headers[1..][k] == headers[k + 1];
      assert forall k :: FirstNamed(headers, name, k) ==> FirstNamed(headers[1..], name, k - 1);
      r
  }

  /** The first value of the header stored as `cookie`, or "" without one. */
  function CookieHeader(req: Request): string {
    match HeaderValues(req.headers, "cookie")
    case Some(values) => if |values| > 0 then values[0] else ""
    case None => ""
  }

  /** getRequestId: the first `x-expose-request-id` value, if any. */
  function GetRequestId(req: Request): (id: Option<string>)
    ensures id.Some? ==>
      exists k :: 0 <= k < |req.headers| && Lower(req.headers[k].name) == RequestIdHeader &&
        |req.headers[k].values| > 0 && id.value == req.headers[k].values[0]
    ensures (forall k :: 0 <= k < |req.headers| ==> Lower(req.headers[k].name) != RequestIdHeader) ==> id == None
    ensures forall k :: FirstNamed(req.headers, RequestIdHeader, k) ==>
      id == (if |req.headers[k].values| > 0 then Some(req.headers[k].values[0]) else None)
  {
    assert Lower(RequestIdHeader) == RequestIdHeader;
    var values := HeaderValuesIgnoringCase(req.headers, RequestIdHeader);
    if |values| > 0 then Some(values[0]) else None
  }

  /** The first value a response gives the header `name`. */
  function ResponseHeader(resp: Response, name: string): Option<string> {
    FindHeader(resp.headers, name)
  }

  function FindHeader(headers: seq<(string, string)>, name: string): Option<string>
    decreases |headers|
  {
    if |headers| == 0 then None
    else if headers[0].0 == name then Some(headers[0].1)
    else FindHeader(headers[1..], name)
  }

  // ---------------------------------------------------------------------------
  // The login path

  /** isLoginFormSubmission: the path is exactly the login path and the method is POST in any case. */
  predicate IsLoginFormSubmission(req: Request) {
    req.path == LoginPath && Upper(req.httpMethod) == "POST"
  }

  /** The method is compared without regard to case: a login submission is a post, Post or POST to the login path. */
  lemma LoginSubmissionAnyCase(req: Request)
    ensures IsLoginFormSubmission(req) <==> req.path == LoginPath && Lower(req.httpMethod) == "post"
  {
    UpperMatchesIffLowerMatches(req.httpMethod, "POST");
    assert Lower("POST") == "post";
  }

  // ---------------------------------------------------------------------------
  // The allow-list

  /**
   * One pattern, lower-cased and trimmed, admits an email, lower-cased: a
   * pattern starting with '@' by suffix, any other by equality.
   */
  predicate PatternAdmits(pattern: string, email: string) {
    var p := Lower(Trim(pattern));
    var e := Lower(email);
    if StartsWith(p, "@") then EndsWith(e, p) else e == p
  }

  /** The allow-list admits an email: it is empty, or one of its patterns admits the email. */
  predicate EmailAllowed(email: string, patterns: seq<string>) {
    |patterns| == 0 || exists i | 0 <= i < |patterns| :: PatternAdmits(patterns[i], email)
  }

  /** isEmailAllowed: the patterns are tried in order and the first that admits the email decides. */
  method IsEmailAllowed(email: string, patterns: seq<string>) returns (allowed: bool)
    ensures allowed == EmailAllowed(email, patterns)
  {
    if |patterns| == 0 {
      return true;
    }
    var lowered := Lower(email);
    var i := 0;
    while i < |patterns|
      invariant 0 <= i <= |patterns|
      invariant forall j :: 0 <= j < i ==> !PatternAdmits(patterns[j], email)
    {
      var pattern := Lower(Trim(patterns[i]));
      if StartsWith(pattern, "@") {
        if EndsWith(lowered, pattern) {
          return true;
        }
      } else if lowered == pattern {
        return true;
      }
      i := i + 1;
    }
    return false;
  }

  /** The allow-list does not see the case of the email or of its patterns. */
  lemma {:induction false} PatternAdmitsIgnoresCase(pattern: string, email: string)
    ensures PatternAdmits(pattern, email) == PatternAdmits(Lower(pattern), email)
    ensures PatternAdmits(pattern, email) == PatternAdmits(pattern, Lower(email))
  {
    TrimLower(pattern);
    LowerIdempotent(Trim(pattern));
    LowerIdempotent(email);
  }

  lemma {:induction false} EmailAllowedIgnoresCase(email: string, patterns: seq<string>)
    ensures EmailAllowed(email, patterns) == EmailAllowed(Lower(email), patterns)
  {
    forall i | 0 <= i < |patterns|
      ensures PatternAdmits(patterns[i], email) == PatternAdmits(patterns[i], Lower(email))
    {
      PatternAdmitsIgnoresCase(patterns[i], email);
    }
  }

  lemma LowerConcat(a: string, b: string)
    ensures Lower(a + b) == Lower(a) + Lower(b)
  {
  }

  /** A trimmed pattern is matched as it is, lower-cased. */
  lemma TrimmedPatternAdmits(pattern: string, email: string)
    requires IsTrimmed(pattern)
    ensures PatternAdmits(pattern, email) <==>
      if StartsWith(Lower(pattern), "@") then EndsWith(Lower(email), Lower(pattern)) else Lower(email) == Lower(pattern)
  {
    assert Trim(pattern) == pattern;
  }

  /** `@domain` of a trimmed domain is a trimmed pattern that, lower-cased, still starts with '@'. */
  lemma DomainPatternLower(domain: string)
    requires IsTrimmed(domain)
    ensures IsTrimmed("@" + domain)
    ensures Lower("@" + domain) == "@" + Lower(domain)
    ensures StartsWith(Lower("@" + domain), "@")
  {
    LowerConcat("@", domain);
    assert ("@" + Lower(domain))[..1] == "@";
  }

  /** A domain pattern `@domain` admits every address at that domain, whatever its local part. */
  lemma {:induction false} DomainPatternAdmitsItsAddresses(local: string, domain: string)
    requires IsTrimmed(domain)
    ensures PatternAdmits("@" + domain, local + "@" + domain)
  {
    DomainPatternLower(domain);
    TrimmedPatternAdmits("@" + domain, local + "@" + domain);
    AddressEndsWithDomain(local, domain);
  }

  lemma AddressEndsWithDomain(local: string, domain: string)
    ensures EndsWith(Lower(local + "@" + domain), "@" + Lower(domain))
  {
    LowerConcat(local, "@" + domain);
    LowerConcat("@", domain);
    assert local + "@" + domain == local + ("@" + domain);
    var e := Lower(local + "@" + domain);
    assert e == Lower(local) + ("@" + Lower(domain));
    assert e[|e| - |"@" + Lower(domain)|..] == "@" + Lower(domain);
  }

  /** A domain pattern `@domain` admits no address at a subdomain of that domain. */
  lemma {:induction false} DomainPatternRejectsSubdomains(local: string, sub: string, domain: string)
    requires IsTrimmed(domain)
    ensures !PatternAdmits("@" + domain, local + "@" + sub + "." + domain)
  {
    DomainPatternLower(domain);
    TrimmedPatternAdmits("@" + domain, local + "@" + sub + "." + domain);
    SubdomainAddressMissesDomain(local, sub, domain);
  }

  lemma SubdomainAddressMissesDomain(local: string, sub: string, domain: string)
    ensures !EndsWith(Lower(local + "@" + sub + "." + domain), "@" + Lower(domain))
  {
    var prefix := local + "@" + sub + ".";
    assert local + "@" + sub + "." + domain == prefix + domain;
    LowerConcat(prefix, domain);
    var e := Lower(prefix + domain);
    var k := |e| - |domain| - 1;
    assert prefix[|prefix| - 1] == '.';
    assert e[k] == '.';
    assert e[k..][0] != ("@" + Lower(domain))[0];
  }

  /** Any other pattern admits exactly the emails equal to it, ignoring case. */
  lemma {:induction false} AddressPatternIsExact(pattern: string, email: string)
    requires IsTrimmed(pattern) && (|pattern| == 0 || pattern[0] != '@')
    ensures PatternAdmits(pattern, email) <==> Lower(email) == Lower(pattern)
  {
    LoweredAddressPattern(pattern);
  }

  lemma LoweredAddressPattern(pattern: string)
    requires IsTrimmed(pattern) && (|pattern| == 0 || pattern[0] != '@')
    ensures Lower(Trim(pattern)) == Lower(pattern) && !StartsWith(Lower(pattern), "@")
  {
    var p := Lower(pattern);
    if |p| > 0 {
      assert p[0] == LowerChar(pattern[0]) != '@';
      assert p[..1] != "@";
    }
  }

  // ---------------------------------------------------------------------------
  // The Cookie header

  /**
   * One `;`-separated piece of a Cookie header: trimmed and cut at its first
   * '=', name and value trimmed again; None when it has no '='.
   */
  function ParseCookieSegment(segment: string): Option<(string, string)> {
    match SplitOnce(Trim(segment), '=')
    case None => None
    case Some(parts) => Some((Trim(parts.0), Trim(parts.1)))
  }

  /** Each segment of a header, parsed. */
  function ParseSegments(segments: seq<string>): (r: seq<Option<(string, string)>>)
    ensures |r| == |segments|
    ensures forall i :: 0 <= i < |r| ==> r[i] == ParseCookieSegment(segments[i])
  {
    seq(|segments|, i requires 0 <= i < |segments| => ParseCookieSegment(segments[i]))
  }

  /** A parsed segment that sets the cookie `name`. */
  predicate Sets(cookie: Option<(string, string)>, name: string) {
    cookie.Some? && cookie.value.0 == name
  }

  /** The cookies of parsed segments, read left to right, a later one overriding; a segment without '=' sets nothing. */
  function Jar(parsed: seq<Option<(string, string)>>): map<string, string>
    decreases |parsed|
  {
    if |parsed| == 0 then map[]
    else
      var jar := Jar(parsed[..|parsed| - 1]);
      match parsed[|parsed| - 1]
      case None => jar
      case Some(cookie) => jar[cookie.0 := cookie.1]
  }

  /** The cookies of a header's segments. */
  function CookieJar(segments: seq<string>): map<string, string> {
    Jar(ParseSegments(segments))
  }

  /** The value of cookie `name` in a Cookie header; a falsy header has no cookies. */
  function CookieValue(header: string, name: string): Option<string> {
    if !Truthy(header) then None
    else
      var jar := CookieJar(Split(header, ';'));
      if name in jar then Some(jar[name]) else None
  }

  /** The last segment that sets a cookie gives its value. */
  lemma {:induction false} JarLastWins(parsed: seq<Option<(string, string)>>, name: string, i: nat)
    requires i < |parsed| && Sets(parsed[i], name)
    requires forall j :: i < j < |parsed| ==> !Sets(parsed[j], name)
    ensures name in Jar(parsed) && Jar(parsed)[name] == parsed[i].value.1
    decreases |parsed|
  {
    if i < |parsed| - 1 {
      var init := parsed[..|parsed| - 1];
      JarLastWins(init, name, i);
      assert !Sets(parsed[|parsed| - 1], name);
    }
  }

  /** A cookie set by the last segment has that segment's value. */
  lemma JarLastSet(parsed: seq<Option<(string, string)>>, name: string)
    requires |parsed| > 0 && Sets(parsed[|parsed| - 1], name)
    ensures name in Jar(parsed) && Jar(parsed)[name] == parsed[|parsed| - 1].value.1
  {
  }

  /** A cookie no segment sets is absent. */
  lemma {:induction false} JarAbsent(parsed: seq<Option<(string, string)>>, name: string)
    requires forall j :: 0 <= j < |parsed| ==> !Sets(parsed[j], name)
    ensures name !in Jar(parsed)
    decreases |parsed|
  {
    if |parsed| > 0 {
      JarAbsent(parsed[..|parsed| - 1], name);
      assert !Sets(parsed[|parsed| - 1], name);
    }
  }

  lemma JarStep(parsed: seq<Option<(string, string)>>, i: nat)
    requires i < |parsed|
    ensures Jar(parsed[..i + 1]) ==
      match parsed[i]
      case None => Jar(parsed[..i])
      case Some(cookie) => Jar(parsed[..i])[cookie.0 := cookie.1]
  {
    assert parsed[..i + 1][..i] == parsed[..i];
  }

  /** The segment that gave a cookie its value: it sets the cookie, and no later segment does. */
  lemma {:induction false} JarWitness(parsed: seq<Option<(string, string)>>, name: string) returns (i: nat)
    requires name in Jar(parsed)
    ensures i < |parsed| && Sets(parsed[i], name) && parsed[i].value.1 == Jar(parsed)[name]
    ensures forall j :: i < j < |parsed| ==> !Sets(parsed[j], name)
    decreases |parsed|
  {
    var init := parsed[..|parsed| - 1];
    if Sets(parsed[|parsed| - 1], name) {
      i := |parsed| - 1;
    } else {
      i := JarWitness(init, name);
      assert forall j :: i < j < |init| ==> init[j] == parsed[j];
    }
  }

  /** getCookieValue: the first `cookie` header is scanned segment by segment into a dictionary. */
  method GetCookieValue(req: Request, name: string) returns (value: Option<string>)
    ensures value == CookieValue(CookieHeader(req), name)
  {
    var header := CookieHeader(req);
    if !Truthy(header) {
      return None;
    }
    var cookies: map<string, string> := map[];
    var segments := Split(header, ';');
    ghost var parsed := ParseSegments(segments);
    for i := 0 to |segments|
      invariant cookies == Jar(parsed[..i])
    {
      JarStep(parsed, i);
      var parts := SplitOnce(Trim(segments[i]), '=');
      if parts.Some? {
        cookies := cookies[Trim(parts.value.0) := Trim(parts.value.1)];
      }
    }
    assert parsed[..|segments|] == parsed;
    value := if name in cookies then Some(cookies[name]) else None;
  }

  // ---------------------------------------------------------------------------
  // The signed session token: base64("email|timestamp|hmac(email|timestamp)")

  function GenerateCookieValue(p: Primitives, secret: string, now: nat, email: string): string {
    var timestamp := NatToString(now);
    var signature := p.hmac(secret, email + "|" + timestamp);
    p.base64Encode(email + "|" + timestamp + "|" + signature)
  }

  function ValidateCookieValue(p: Primitives, secret: string, now: nat, value: string): bool {
    match p.base64Decode(value)
    case None => false
    case Some(decoded) =>
      var parts := Split(decoded, '|');
      if |parts| != 3 then false
      else
        var email, timestamp, signature := parts[0], parts[1], parts[2];
        if p.hmac(secret, email + "|" + timestamp) != signature then false
        else if now - PhpIntCast(timestamp) > CookieLifetime then false
        else true
  }

  lemma {:induction false} SplitThree(a: string, b: string, c: string, d: char)
    requires d !in a && d !in b && d !in c
    ensures Split(a + [d] + b + [d] + c, d) == [a, b, c]
  {
    assert a + [d] + b + [d] + c == a + [d] + (b + [d] + c);
    SplitAppend(a, b + [d] + c, d);
    SplitAppend(b, c, d);
    SplitNoDelimiter(a, d);
    SplitNoDelimiter(b, d);
    SplitNoDelimiter(c, d);
  }

  lemma {:induction false} SplitMany(s: string, d: char)
    requires d in s
    ensures |Split(s, d)| >= 2
  {
    var parts := SplitOnce(s, d).value;
    SplitAppend(parts.0, parts.1, d);
  }

  lemma HexHasNoBar(s: string)
    requires IsHexText(s)
    ensures '|' !in s
  {
    forall i | 0 <= i < |s|
      ensures s[i] != '|'
    {
      assert IsHexChar(s[i]);
    }
  }

  lemma DigitsHaveNoBar(n: nat)
    ensures '|' !in NatToString(n)
  {
    var s := NatToString(n);
    forall i | 0 <= i < |s|
      ensures s[i] != '|'
    {
      assert IsDigit(s[i]);
    }
  }

  /** A token issued for an email without '|' decodes to the email, the issue time and the signature, and its time casts back. */
  lemma {:induction false} GeneratedCookieParts(p: Primitives, secret: string, issuedAt: nat, email: string)
    requires Lawful(p)
    requires '|' !in email
    ensures var timestamp := NatToString(issuedAt);
      var decoded := p.base64Decode(GenerateCookieValue(p, secret, issuedAt, email));
      && decoded.Some?
      && Split(decoded.value, '|') == [email, timestamp, p.hmac(secret, email + "|" + timestamp)]
      && PhpIntCast(timestamp) == issuedAt
  {
    var timestamp := NatToString(issuedAt);
    var signature := p.hmac(secret, email + "|" + timestamp);
    var payload := email + "|" + timestamp + "|" + signature;
    assert p.base64Decode(p.base64Encode(payload)) == Some(payload);
    DigitsHaveNoBar(issuedAt);
    HexHasNoBar(signature);
    SplitThree(email, timestamp, signature, '|');
    IntCastRoundTrip(issuedAt);
  }

  /**
   * Only signed tokens are accepted: a value that validates decodes to
   * `email|timestamp|hmac(email|timestamp)` with no bar in the email or the
   * timestamp, and its timestamp is at most seven days old.
   */
  lemma AcceptedCookieIsSigned(p: Primitives, secret: string, now: nat, value: string)
    requires ValidateCookieValue(p, secret, now, value)
    ensures p.base64Decode(value).Some?
    ensures var decoded := p.base64Decode(value).value;
      var parts := Split(decoded, '|');
      && |parts| == 3
      && '|' !in parts[0] && '|' !in parts[1]
      && decoded == parts[0] + "|" + parts[1] + "|" + p.hmac(secret, parts[0] + "|" + parts[1])
      && now - PhpIntCast(parts[1]) <= CookieLifetime
  {
    var decoded := p.base64Decode(value).value;
    var parts := Split(decoded, '|');
    JoinSplit(decoded, '|');
    JoinThree(parts, '|');
  }

  /**
   * Round trip: under the same secret, a token issued at `issuedAt` for an
   * email without '|' validates exactly while at most seven days have passed
   * (an age of exactly 604800 seconds is still accepted).
   */
  lemma {:induction false} CookieRoundTrip(p: Primitives, secret: string, issuedAt: nat, now: nat, email: string)
    requires Lawful(p)
    requires '|' !in email
    ensures ValidateCookieValue(p, secret, now, GenerateCookieValue(p, secret, issuedAt, email))
            <==> now - issuedAt <= CookieLifetime
  {
    GeneratedCookieParts(p, secret, issuedAt, email);
  }

  /** A token whose signature field was replaced by anything else is rejected. */
  lemma {:induction false} TamperedSignatureRejected(p: Primitives, secret: string, issuedAt: nat, now: nat,
                                                     email: string, forged: string)
    requires Lawful(p)
    requires '|' !in email
    requires forged != p.hmac(secret, email + "|" + NatToString(issuedAt))
    ensures !ValidateCookieValue(p, secret, now,
              p.base64Encode(email + "|" + NatToString(issuedAt) + "|" + forged))
  {
    var timestamp := NatToString(issuedAt);
    var payload := email + "|" + timestamp + "|" + forged;
    assert p.base64Decode(p.base64Encode(payload)) == Some(payload);
    DigitsHaveNoBar(issuedAt);
    if '|' in forged {
      assert payload == email + "|" + (timestamp + "|" + forged);
      SplitAppend(email, timestamp + "|" + forged, '|');
      SplitAppend(timestamp, forged, '|');
      SplitMany(forged, '|');
    } else {
      SplitThree(email, timestamp, forged, '|');
    }
  }

  /** The token of an email containing '|' never validates: it decodes to more than three fields. */
  lemma {:induction false} BarInEmailNeverValidates(p: Primitives, secret: string, issuedAt: nat, now: nat,
                                                    email: string)
    requires Lawful(p)
    requires '|' in email
    ensures !ValidateCookieValue(p, secret, now, GenerateCookieValue(p, secret, issuedAt, email))
  {
    var timestamp := NatToString(issuedAt);
    var signature := p.hmac(secret, email + "|" + timestamp);
    var payload := email + "|" + timestamp + "|" + signature;
    assert p.base64Decode(p.base64Encode(payload)) == Some(payload);
    assert payload == email + "|" + (timestamp + "|" + signature);
    SplitAppend(email, timestamp + "|" + signature, '|');
    SplitAppend(timestamp, signature, '|');
    SplitMany(email, '|');
  }

  /** hasValidAuthCookie: a truthy `expose_magic_auth` cookie that validates. */
  predicate HasValidAuthCookie(g: Gate, now: nat, req: Request) {
    var value := CookieValue(CookieHeader(req), CookieName);
    value.Some? && Truthy(value.value) && ValidateCookieValue(g.prims, g.secret, now, value.value)
  }

  // ---------------------------------------------------------------------------
  // Synthesized responses

  /**
   * The target the login form posts back: the given redirect URL, or else the
   * request path, followed by `?query` when the request's query is truthy.
   */
  function RedirectTarget(req: Request, redirectUrl: Option<string>): (url: string)
    ensures var base := redirectUrl.GetOr(req.path);
      && StartsWith(url, base)
      && (Truthy(req.query) ==> url[|base|..] == "?" + req.query)
      && (!Truthy(req.query) ==> url == base)
  {
    var base := redirectUrl.GetOr(req.path);
    var url := if Truthy(req.query) then base + "?" + req.query else base;
    assert url[..|base|] == base;
    url
  }

  /** showLoginForm: a 401 HTML page rendered for the error and the redirect target. */
  function LoginForm(g: Gate, req: Request, error: Option<string>, redirectUrl: Option<string>): (r: Response)
    ensures r.status == 401
    ensures r.body == g.prims.render(error, RedirectTarget(req, redirectUrl))
    ensures ResponseHeader(r, "Content-Type") == Some("text/html; charset=UTF-8")
    ensures ResponseHeader(r, "Content-Length").Some?
    ensures PhpIntCast(ResponseHeader(r, "Content-Length").value) == |r.body|
  {
    var html := g.prims.render(error, RedirectTarget(req, redirectUrl));
    var headers := [("Content-Type", "text/html; charset=UTF-8"), ("Content-Length", NatToString(|html|))];
    assert FindHeader(headers[1..], "Content-Length") == Some(NatToString(|html|));
    IntCastRoundTrip(|html|);
    Response(401, headers, html)
  }

  function SetCookieHeader(token: string): string {
    CookieName + "=" + token + "; Path=/; Max-Age=" + NatToString(CookieLifetime) + "; HttpOnly; SameSite=Lax"
  }

  /** The cookie attributes carry a Max-Age of exactly seven days. */
  lemma MaxAgeIsSevenDays()
    ensures NatToString(CookieLifetime) == "604800"
  {
    assert NatToString(6) == "6";
    assert NatToString(60) == "60";
    assert NatToString(604) == "604";
    assert NatToString(6048) == "6048";
    assert NatToString(60480) == "60480";
    assert NatToString(604800) == "604800";
  }

  function LoginRedirect(redirectUrl: string, token: string): (r: Response)
    ensures r.status == 302 && r.body == ""
    ensures ResponseHeader(r, "Location") == Some(redirectUrl)
    ensures ResponseHeader(r, "Set-Cookie") == Some(SetCookieHeader(token))
  {
    var headers := [("Location", redirectUrl), ("Set-Cookie", SetCookieHeader(token))];
    assert FindHeader(headers[1..], "Set-Cookie") == Some(SetCookieHeader(token));
    Response(302, headers, "")
  }

  /** The email of a login submission: the form's `email` field, trimmed, or "". */
  function SubmittedEmail(g: Gate, req: Request): string {
    Trim(Lookup(g.prims.parseForm(req.body), "email", ""))
  }

  /** The redirect URL of a login submission: the form's `redirect_url` field, or "/". */
  function SubmittedRedirect(g: Gate, req: Request): string {
    Lookup(g.prims.parseForm(req.body), "redirect_url", "/")
  }

  /** handleLoginFormSubmission: the response to a submitted login form. */
  function HandleLoginFormSubmission(g: Gate, now: nat, req: Request): (r: Response)
    ensures var email := SubmittedEmail(g, req);
      r.status == 302 <==> g.prims.isValidEmail(email) && EmailAllowed(email, Config.AllowedPatterns(g.magicAuth))
    ensures r.status == 302 || r.status == 401
    ensures r.status == 302 ==>
      && ResponseHeader(r, "Location") == Some(SubmittedRedirect(g, req))
      && ResponseHeader(r, "Set-Cookie") ==
         Some(SetCookieHeader(GenerateCookieValue(g.prims, g.secret, now, SubmittedEmail(g, req))))
  {
    var email := SubmittedEmail(g, req);
    var redirectUrl := SubmittedRedirect(g, req);
    if !g.prims.isValidEmail(email) then
      LoginForm(g, req, Some(InvalidEmailMessage), Some(redirectUrl))
    else if !EmailAllowed(email, Config.AllowedPatterns(g.magicAuth)) then
      LoginForm(g, req, Some(NotAuthorizedMessage), Some(redirectUrl))
    else
      LoginRedirect(redirectUrl, GenerateCookieValue(g.prims, g.secret, now, email))
  }

  // ---------------------------------------------------------------------------
  // handle

  /** What handle does with a request: return it for forwarding, or answer it itself. */
  datatype Decision = Forward(request: Request) | Respond(response: Response)

  function Handle(g: Gate, now: nat, req: Request, connected: bool): (d: Decision)
    ensures !RequiresAuthentication(g) || !connected ==> d == Forward(req)
    ensures RequiresAuthentication(g) && connected && IsLoginFormSubmission(req) ==> d.Respond?
    ensures d.Forward? ==> d.request == req
  {
    if !RequiresAuthentication(g) || !connected then Forward(req)
    else if IsLoginFormSubmission(req) then Respond(HandleLoginFormSubmission(g, now, req))
    else if HasValidAuthCookie(g, now, req) then Forward(req)
    else Respond(LoginForm(g, req, None, None))
  }

  /**
   * A login submission is answered with the login form and a 401 when the
   * email is malformed or not on the allow-list, each with its own message
   * and the submitted redirect URL ("/" by default), and otherwise with a
   * 302 to that URL carrying the freshly signed cookie.
   */
  lemma LoginSubmissionOutcome(g: Gate, now: nat, req: Request)
    requires RequiresAuthentication(g) && IsLoginFormSubmission(req)
    ensures var email, redirectUrl := SubmittedEmail(g, req), SubmittedRedirect(g, req);
      var d := Handle(g, now, req, true);
      && d.Respond?
      && ("redirect_url" !in g.prims.parseForm(req.body) ==> redirectUrl == "/")
      && (!g.prims.isValidEmail(email) ==>
            d.response.status == 401 &&
            d.response.body == g.prims.render(Some(InvalidEmailMessage), RedirectTarget(req, Some(redirectUrl))))
      && (g.prims.isValidEmail(email) && !EmailAllowed(email, Config.AllowedPatterns(g.magicAuth)) ==>
            d.response.status == 401 &&
            d.response.body == g.prims.render(Some(NotAuthorizedMessage), RedirectTarget(req, Some(redirectUrl))))
      && (g.prims.isValidEmail(email) && EmailAllowed(email, Config.AllowedPatterns(g.magicAuth)) ==>
            d.response.status == 302 &&
            ResponseHeader(d.response, "Location") == Some(redirectUrl) &&
            ResponseHeader(d.response, "Set-Cookie")
              == Some(SetCookieHeader(GenerateCookieValue(g.prims, g.secret, now, email))))
  {
    var email, redirectUrl := SubmittedEmail(g, req), SubmittedRedirect(g, req);
    assert Handle(g, now, req, true) == Respond(HandleLoginFormSubmission(g, now, req));
  }

  /**
   * Any other request is forwarded exactly when it carries a valid session
   * cookie, and is otherwise answered with the error-free 401 login form
   * pointing back at the request's own path and query.
   */
  lemma ChallengeOutcome(g: Gate, now: nat, req: Request)
    requires RequiresAuthentication(g) && !IsLoginFormSubmission(req)
    ensures var d := Handle(g, now, req, true);
      && (d.Forward? <==> HasValidAuthCookie(g, now, req))
      && (d.Respond? ==>
            d.response.status == 401 &&
            d.response.body == g.prims.render(None, RedirectTarget(req, None)) &&
            StartsWith(RedirectTarget(req, None), req.path))
  {
  }

  /** An empty policy still demands the login step, and then admits every valid email. */
  lemma EmptyPolicyAdmitsEveryone(g: Gate, now: nat, req: Request)
    requires g.magicAuth == Some("")
    requires IsLoginFormSubmission(req) && g.prims.isValidEmail(SubmittedEmail(g, req))
    ensures RequiresAuthentication(g)
    ensures Handle(g, now, req, true).response.status == 302
  {
  }

  lemma {:induction false} SplitOnceAt(x: string, y: string, d: char)
    requires d !in x
    ensures SplitOnce(x + [d] + y, d) == Some((x, y))
    decreases |x|
  {
    if |x| > 0 {
      assert (x + [d] + y)[1..] == x[1..] + [d] + y;
      SplitOnceAt(x[1..], y, d);
      assert [x[0]] + x[1..] == x;
    }
  }

  /** `name=value` with both sides non-empty and trimmed, and no '=' in the name, parses to that name and value. */
  lemma {:induction false} PlainSegmentParses(name: string, value: string)
    requires |name| > 0 && |value| > 0 && IsTrimmed(name) && IsTrimmed(value) && '=' !in name
    ensures ParseCookieSegment(name + "=" + value) == Some((name, value))
  {
    var segment := name + "=" + value;
    assert segment == name + ['='] + value;
    assert IsTrimmed(segment) by {
      assert segment[0] == name[0];
      assert segment[|segment| - 1] == value[|value| - 1];
    }
    SplitOnceAt(name, value, '=');
  }

  lemma CookieNameIsPlain()
    ensures |CookieName| > 0 && IsTrimmed(CookieName) && '=' !in CookieName && ';' !in CookieName
  {
  }

  /** The cookie segment `expose_magic_auth=<token>` of a lawful token parses back to the token. */
  lemma {:induction false} SessionSegmentParses(p: Primitives, payload: string)
    requires Lawful(p) && |payload| > 0
    ensures var token := p.base64Encode(payload);
      && ';' !in CookieName + "=" + token
      && ParseCookieSegment(CookieName + "=" + token) == Some((CookieName, token))
      && Truthy(token)
  {
    var token := p.base64Encode(payload);
    assert IsBase64Text(token) && |token| >= 4;
    Base64TextIsPlain(token);
    CookieNameIsPlain();
    PlainSegmentParses(CookieName, token);
    DelimiterFreeSegment(CookieName, token, ';');
  }

  /** Base64 text of two characters or more is trimmed, truthy and free of ';'. */
  lemma Base64TextIsPlain(token: string)
    requires IsBase64Text(token) && |token| >= 2
    ensures IsTrimmed(token) && Truthy(token) && ';' !in token
  {
    assert IsBase64Char(token[0]);
    assert IsBase64Char(token[|token| - 1]);
    assert token != "0" by {
      assert |token| != |"0"|;
    }
    forall i | 0 <= i < |token|
      ensures token[i] != ';'
    {
      assert IsBase64Char(token[i]);
    }
  }

  lemma DelimiterFreeSegment(name: string, value: string, d: char)
    requires d != '=' && d !in name && d !in value
    ensures d !in name + "=" + value
  {
    var segment := name + "=" + value;
    forall i | 0 <= i < |segment|
      ensures segment[i] != d
    {
      if i < |name| {
        assert segment[i] == name[i];
      } else if i > |name| {
        assert segment[i] == value[i - |name| - 1];
      }
    }
  }

  /** No segment of the header after segment `i` sets the cookie `name`. */
  predicate NoLaterSetting(header: string, name: string, i: nat) {
    var segments := Split(header, ';');
    forall j :: i < j < |segments| ==> !Sets(ParseCookieSegment(segments[j]), name)
  }

  /** Segment `i` of the header is the last one that sets `name`, and it sets it to `value`. */
  predicate LastSetAt(header: string, name: string, value: string, i: nat) {
    var segments := Split(header, ';');
    && i < |segments|
    && ParseCookieSegment(segments[i]) == Some((name, value))
    && NoLaterSetting(header, name, i)
  }

  /** Reading a cookie: the last segment that sets it gives its value, whatever the other segments hold. */
  lemma CookieValueOfLastSet(header: string, name: string, value: string, i: nat)
    requires LastSetAt(header, name, value, i)
    ensures CookieValue(header, name) == Some(value)
  {
    var segments := Split(header, ';');
    var parsed := ParseSegments(segments);
    assert Sets(parsed[i], name) && parsed[i].value.1 == value;
    LaterSegmentsSetNothing(header, name, i);
    JarLastWins(parsed, name, i);
    SettingHeaderIsTruthy(header, i);
    CookieValueOfJar(header, name);
  }

  /** No segment of the header sets the cookie `name`. */
  predicate SetsNowhere(header: string, name: string) {
    var segments := Split(header, ';');
    forall j :: 0 <= j < |segments| ==> !Sets(ParseCookieSegment(segments[j]), name)
  }

  /** A cookie that no segment sets has no value. */
  lemma CookieValueOfUnset(header: string, name: string)
    requires SetsNowhere(header, name)
    ensures CookieValue(header, name) == None
  {
    var parsed := ParseSegments(Split(header, ';'));
    assert forall j :: 0 <= j < |parsed| ==> !Sets(parsed[j], name);
    JarAbsent(parsed, name);
  }

  /** Conversely, a cookie that has a value has it from the last segment that sets it. */
  lemma CookieValueHasLastSetting(header: string, name: string)
    requires CookieValue(header, name).Some?
    ensures exists i :: LastSetAt(header, name, CookieValue(header, name).value, i)
  {
    var segments := Split(header, ';');
    var parsed := ParseSegments(segments);
    var i := JarWitness(parsed, name);
    assert parsed[i] == ParseCookieSegment(segments[i]);
    assert forall j :: i < j < |segments| ==> parsed[j] == ParseCookieSegment(segments[j]);
    assert LastSetAt(header, name, CookieValue(header, name).value, i);
  }

  /** A request none of whose cookie segments sets `expose_magic_auth` never carries a valid session. */
  lemma NoSessionCookieNoAccess(g: Gate, now: nat, req: Request)
    requires SetsNowhere(CookieHeader(req), CookieName)
    ensures !HasValidAuthCookie(g, now, req)
  {
    CookieValueOfUnset(CookieHeader(req), CookieName);
  }

  lemma LaterSegmentsSetNothing(header: string, name: string, i: nat)
    requires NoLaterSetting(header, name, i)
    ensures var parsed := ParseSegments(Split(header, ';'));
      forall j :: i < j < |parsed| ==> !Sets(parsed[j], name)
  {
  }

  /** A header with a segment that sets some cookie is truthy: "" and "0" hold no '='. */
  lemma {:induction false} SettingHeaderIsTruthy(header: string, i: nat)
    requires i < |Split(header, ';')| && ParseCookieSegment(Split(header, ';')[i]).Some?
    ensures Truthy(header)
  {
    if !Truthy(header) {
      FalsyHeaderSetsNothing(header, i);
      assert false;
    }
  }

  /** A falsy header, "" or "0", is one segment that sets no cookie. */
  lemma FalsyHeaderSetsNothing(header: string, i: nat)
    requires !Truthy(header) && i < |Split(header, ';')|
    ensures Split(header, ';') == [header] && ParseCookieSegment(Split(header, ';')[i]) == None
  {
    if header == "" {
      assert Trim(header) == header;
    } else {
      assert header == "0";
      assert IsTrimmed(header);
      assert Trim(header) == header;
      SplitNoDelimiter(header, ';');
    }
  }

  /** Parsing a segment first trims it, so padding around a segment changes nothing. */
  lemma PaddedSegmentParses(segment: string, plain: string)
    requires Trim(segment) == plain
    ensures ParseCookieSegment(segment) == ParseCookieSegment(plain)
  {
    assert Trim(plain) == plain;
  }

  /**
   * A Cookie header in which some segment, once trimmed, is the session
   * cookie of a lawful token, and no later segment sets `expose_magic_auth`,
   * yields that token, and the token is truthy.
   */
  lemma SessionCookieRead(p: Primitives, header: string, payload: string, i: nat)
    requires Lawful(p) && |payload| > 0
    requires i < |Split(header, ';')|
    requires Trim(Split(header, ';')[i]) == CookieName + "=" + p.base64Encode(payload)
    requires NoLaterSetting(header, CookieName, i)
    ensures LastSetAt(header, CookieName, p.base64Encode(payload), i)
    ensures CookieValue(header, CookieName) == Some(p.base64Encode(payload))
    ensures Truthy(p.base64Encode(payload))
  {
    SessionSegmentParses(p, payload);
    PaddedSegmentParses(Split(header, ';')[i], CookieName + "=" + p.base64Encode(payload));
    CookieValueOfLastSet(header, CookieName, p.base64Encode(payload), i);
  }

  /** The header a browser sends with the session cookie after its other cookies, joined by "; ". */
  lemma {:induction false} BrowserSessionCookie(p: Primitives, earlier: string, payload: string)
    requires Lawful(p) && |payload| > 0
    ensures var header := earlier + "; " + (CookieName + "=" + p.base64Encode(payload));
      CookieValue(header, CookieName) == Some(p.base64Encode(payload))
  {
    var segment := CookieName + "=" + p.base64Encode(payload);
    var header := earlier + "; " + segment;
    SessionSegmentParses(p, payload);
    LastPaddedSegment(earlier, segment);
    LastSegmentSets(header, CookieName, p.base64Encode(payload));
  }

  /** A header whose last segment sets `name` to `value` gives `name` that value. */
  lemma LastSegmentSets(header: string, name: string, value: string)
    requires var s := Split(header, ';'); ParseCookieSegment(s[|s| - 1]) == Some((name, value))
    ensures CookieValue(header, name) == Some(value)
  {
    var i := |Split(header, ';')| - 1;
    assert NoLaterSetting(header, name, i);
    CookieValueOfLastSet(header, name, value, i);
  }

  /** A trimmed segment without ';' after "; " is the header's last segment, with one space before it. */
  lemma {:induction false} LastPaddedSegment(earlier: string, segment: string)
    requires ';' !in segment && |segment| > 0 && IsTrimmed(segment)
    ensures var s := Split(earlier + "; " + segment, ';');
      && s[|s| - 1] == " " + segment
      && Trim(s[|s| - 1]) == segment
      && ParseCookieSegment(s[|s| - 1]) == ParseCookieSegment(segment)
  {
    assert ';' !in " " + segment by {
      assert forall k :: 1 <= k < |" " + segment| ==> (" " + segment)[k] == segment[k - 1];
    }
    SplitNoDelimiter(" " + segment, ';');
    assert earlier + "; " + segment == earlier + [';'] + (" " + segment);
    SplitAppend(earlier, " " + segment, ';');
    SpaceThenTrimmed(segment);
    PaddedSegmentParses(" " + segment, segment);
  }

  lemma SpaceThenTrimmed(segment: string)
    requires |segment| > 0 && IsTrimmed(segment)
    ensures Trim(" " + segment) == segment
  {
    assert (" " + segment)[1..] == segment;
    assert TrimLeft(" " + segment) == TrimLeft(segment) == segment;
    assert Trim(" " + segment) == TrimRight(segment);
    assert Trim(segment) == segment;
  }

  /** A session token is never falsy: it is the Base64 text of a non-empty payload. */
  lemma SessionTokenIsTruthy(p: Primitives, secret: string, issuedAt: nat, email: string)
    requires Lawful(p)
    ensures Truthy(GenerateCookieValue(p, secret, issuedAt, email))
  {
    var timestamp := NatToString(issuedAt);
    var payload := email + "|" + timestamp + "|" + p.hmac(secret, email + "|" + timestamp);
    assert |payload| > 0;
    Base64TextIsPlain(p.base64Encode(payload));
  }

  lemma CookieValueOfJar(header: string, name: string)
    requires Truthy(header) && name in CookieJar(Split(header, ';'))
    ensures CookieValue(header, name) == Some(CookieJar(Split(header, ';'))[name])
  {
  }

  /**
   * Logging in and coming back: when a login submission at time `issuedAt`
   * succeeds, its 302 sets the cookie `expose_magic_auth=<token>`; a later
   * request whose Cookie header has that cookie as its last
   * `expose_magic_auth` segment, wherever it stands among other cookies, is
   * forwarded for as long as the token is at most seven days old.
   */
  lemma {:induction false} LoginThenAccess(g: Gate, login: Request, issuedAt: nat, later: Request, now: nat, i: nat)
    requires Lawful(g.prims) && RequiresAuthentication(g)
    requires IsLoginFormSubmission(login)
    requires g.prims.isValidEmail(SubmittedEmail(g, login))
    requires EmailAllowed(SubmittedEmail(g, login), Config.AllowedPatterns(g.magicAuth))
    requires '|' !in SubmittedEmail(g, login)
    requires !IsLoginFormSubmission(later)
    requires LastSetAt(CookieHeader(later), CookieName,
                       GenerateCookieValue(g.prims, g.secret, issuedAt, SubmittedEmail(g, login)), i)
    requires now - issuedAt <= CookieLifetime
    ensures var token := GenerateCookieValue(g.prims, g.secret, issuedAt, SubmittedEmail(g, login));
      && Handle(g, issuedAt, login, true).response.status == 302
      && ResponseHeader(Handle(g, issuedAt, login, true).response, "Set-Cookie") == Some(SetCookieHeader(token))
      && Handle(g, now, later, true) == Forward(later)
  {
    var email := SubmittedEmail(g, login);
    LoginSubmissionOutcome(g, issuedAt, login);
    ReturnWithSessionCookie(g, email, issuedAt, later, now, i);
  }

  /**
   * A later request whose Cookie header's last `expose_magic_auth` segment
   * carries the session cookie issued at `issuedAt`, for an email without a
   * bar, is forwarded while the token is at most seven days old.
   */
  lemma {:induction false} ReturnWithSessionCookie(g: Gate, email: string, issuedAt: nat, later: Request, now: nat, i: nat)
    requires Lawful(g.prims) && RequiresAuthentication(g)
    requires '|' !in email
    requires !IsLoginFormSubmission(later)
    requires LastSetAt(CookieHeader(later), CookieName, GenerateCookieValue(g.prims, g.secret, issuedAt, email), i)
    requires now - issuedAt <= CookieLifetime
    ensures Handle(g, now, later, true) == Forward(later)
  {
    var token := GenerateCookieValue(g.prims, g.secret, issuedAt, email);
    SessionTokenIsTruthy(g.prims, g.secret, issuedAt, email);
    CookieValueOfLastSet(CookieHeader(later), CookieName, token, i);
    CookieRoundTrip(g.prims, g.secret, issuedAt, now, email);
    assert HasValidAuthCookie(g, now, later);
    ChallengeOutcome(g, now, later);
  }

  // ---------------------------------------------------------------------------
  // Delivering a synthesized response

  /** What the gate makes happen outside itself, in order. */
  datatype Event = ResponseLogged(requestId: string, response: Response) | ResponseSent(response: Response) | ConnectionClosed

  /** The effects of sendResponse: logged by request id when there is a truthy one, then sent, then closed. */
  function ResponseEvents(req: Request, resp: Response): (events: seq<Event>)
    ensures 2 <= |events| <= 3
    ensures events[|events| - 2] == ResponseSent(resp) && events[|events| - 1] == ConnectionClosed
    ensures |events| == 3 <==> GetRequestId(req).Some? && Truthy(GetRequestId(req).value)
    ensures |events| == 3 ==> events[0] == ResponseLogged(GetRequestId(req).value, resp)
  {
    var id := GetRequestId(req);
    (if id.Some? && Truthy(id.value) then [ResponseLogged(id.value, resp)] else [])
      + [ResponseSent(resp), ConnectionClosed]
  }

  /** The first `x-expose-request-id` header, in any case, with a truthy first value: the response is logged under it. */
  lemma RequestIdLogged(req: Request, resp: Response, k: int)
    requires FirstNamed(req.headers, RequestIdHeader, k)
    requires |req.headers[k].values| > 0 && Truthy(req.headers[k].values[0])
    ensures ResponseEvents(req, resp) == [ResponseLogged(req.headers[k].values[0], resp), ResponseSent(resp), ConnectionClosed]
  {
  }

  /** The request logger and the proxy connection, seen together as one ordered record of effects. */
  class Trace {
    var events: seq<Event>

    constructor()
      ensures events == []
    {
      events := [];
    }
  }

  method SendResponse(req: Request, resp: Response, trace: Trace)
    modifies trace
    ensures trace.events == old(trace.events) + ResponseEvents(req, resp)
  {
    var requestId := GetRequestId(req);
    if requestId.Some? && Truthy(requestId.value) {
      trace.events := trace.events + [ResponseLogged(requestId.value, resp)];
    }
    trace.events := trace.events + [ResponseSent(resp)];
    trace.events := trace.events + [ConnectionClosed];
  }

  /** The gate as configured: the policy and the secret the configuration installed. */
  function GateOf(configuration: Config.Configuration, store: Config.ConfigStore, prims: Primitives): Gate
    reads configuration, store
  {
    Gate(configuration.magicAuth, store.magicAuthSecretKey.GetOr(""), prims)
  }

  /**
   * handle with its effects: a forwarded request leaves the trace alone; an
   * answered one returns null after the response was logged, sent and the
   * connection closed.
   */
  method HandleRequest(configuration: Config.Configuration, store: Config.ConfigStore, prims: Primitives,
                       now: nat, req: Request, proxyConnected: bool, trace: Trace)
    returns (forwarded: Option<Request>)
    modifies trace
    ensures var d := Handle(GateOf(configuration, store, prims), now, req, proxyConnected);
      && (d.Forward? ==> forwarded == Some(req) && trace.events == old(trace.events))
      && (d.Respond? ==> forwarded == None && trace.events == old(trace.events) + ResponseEvents(req, d.response))
  {
    var d := Handle(GateOf(configuration, store, prims), now, req, proxyConnected);
    match d
    case Forward(r) =>
      forwarded := Some(r);
    case Respond(resp) =>
      SendResponse(req, resp, trace);
      forwarded := None;
  }
}
