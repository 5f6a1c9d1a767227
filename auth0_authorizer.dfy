/**
 * The custom authorizer in front of the HTTP API. It reads a bearer token from the
 * `Authorization` header (the scheme of section 2.1 of RFC 6750, with the scheme
 * name matched case-insensitively), picks the RSA signing key named by the token's
 * `kid` out of the identity provider's JWK set (RFC 7517), verifies the token and
 * answers with an IAM policy that allows or denies `execute-api:Invoke` on every
 * resource.
 *
 * The network fetch of the key set is an input (`None` when the request fails or
 * the response has no `keys`); JWT decoding and RS256 signature verification are
 * oracles passed in as functions.
 */
module Auth0Authorizer {
  import opened Wrappers
  import opened JsStrings
  import opened Pem

  /** Everything that can go wrong while authorizing, in the order it is checked. */
  datatype AuthError =
    | NoAuthHeader          // "No authentication header"
    | InvalidAuthHeader     // "Invalid authentication header"
    | KeyConversionFailed   // `x5c[0]` missing or not a certificate: a TypeError in the map
    | SigningKeysEmpty      // "Signing keys is empty"
    | InvalidSigningKey     // "Invalid Signing key"

  /** The messages the source throws with, for the errors it raises itself. */
  function Message(e: AuthError): Option<string>
  {
    match e
    case NoAuthHeader => Some("No authentication header")
    case InvalidAuthHeader => Some("Invalid authentication header")
    case SigningKeysEmpty => Some("Signing keys is empty")
    case InvalidSigningKey => Some("Invalid Signing key")
    case _ => None
  }

  // ---------------------------------------------------------------------------
  // getToken

  const BearerPrefix: string := "bearer "

  /**
   * `getToken(authHeader)`: an absent or empty header is refused, a header not
   * starting with "bearer " in any case is refused, and otherwise the token is the
   * second piece of splitting the header at every space.
   */
  function GetToken(authHeader: Option<string>): (r: Result<string, AuthError>)
    ensures r == Err(NoAuthHeader) <==> authHeader == None || authHeader == Some("")
    ensures r == Err(InvalidAuthHeader) <==>
              authHeader.Some? && authHeader.value != "" && !StartsWith(ToLower(authHeader.value), BearerPrefix)
    ensures r.Err? ==> r.error == NoAuthHeader || r.error == InvalidAuthHeader
    ensures r.Err? ==> Message(r.error).Some?
    ensures r.Ok? ==> ' ' !in r.value
  {
    if authHeader.None? || authHeader.value == "" then Err(NoAuthHeader)
    else
      var h := authHeader.value;
      if !StartsWith(ToLower(h), BearerPrefix) then Err(InvalidAuthHeader)
      else
        assert h[6] == ' ' by { assert ToLower(h)[6] == ' '; }
        CountZero(h, ' ');
        Ok(Split(h, ' ')[1])
  }

  /** A header sub-string that spells "bearer " in lower case has no space before the last character. */
  lemma BearerShape(p: string)
    requires |p| == 7 && ToLower(p) == BearerPrefix
    ensures ' ' !in p[..6] && p[6] == ' '
  {
    assert forall i :: 0 <= i < 7 ==> LowerChar(p[i]) == BearerPrefix[i];
  }

  /**
   * Whatever the case of the scheme name, the token is the text after "bearer "
   * up to the next space: the text between the first and the second space.
   */
  lemma GetTokenAfterScheme(p: string, rest: string)
    requires |p| == 7 && ToLower(p) == BearerPrefix
    ensures GetToken(Some(p + rest)) == Ok(TakeUntil(rest, ' '))
  {
    var h := p + rest;
    BearerShape(p);
    assert ToLower(h)[..7] == ToLower(p);
    assert h == p[..6] + [' '] + rest;
    SplitAfterPiece(p[..6], rest, ' ');
    SplitFirst(rest, ' ');
  }

  /** "Bearer a b" yields "a": the text between the first and the second space. */
  lemma GetTokenSecondPiece()
    ensures GetToken(Some("Bearer a b")) == Ok("a")
  {
    GetTokenAfterScheme("Bearer ", "a b");
    assert "Bearer a b" == "Bearer " + "a b";
    assert "a b"[1..] == " b" && TakeUntil(" b", ' ') == "";
    assert TakeUntil("a b", ' ') == "a";
  }

  /** The scheme name is matched in any case. */
  lemma GetTokenAnyCase(token: string)
    requires ' ' !in token
    ensures GetToken(Some("Bearer " + token)) == Ok(token)
    ensures GetToken(Some("BEARER " + token)) == Ok(token)
    ensures GetToken(Some("bearer " + token)) == Ok(token)
  {
    TakeUntilWhole(token, ' ');
    GetTokenAfterScheme("Bearer ", token);
    GetTokenAfterScheme("BEARER ", token);
    GetTokenAfterScheme("bearer ", token);
  }

  /** Another scheme, or the scheme name without the space after it, is refused. */
  lemma GetTokenRejectsOtherScheme()
    ensures GetToken(Some("Basic tok")) == Err(InvalidAuthHeader)
    ensures GetToken(Some("Bearer")) == Err(InvalidAuthHeader)
  {
    var basic := "Basic tok";
    assert LowerChar(basic[1]) == 'a';
    assert ToLower(basic)[..7][1] != BearerPrefix[1];
    assert !StartsWith(ToLower(basic), BearerPrefix);
    assert |ToLower("Bearer")| == 6;
  }

  // ---------------------------------------------------------------------------
  // getSigningKey

  /** One entry of the JWK set, with the parameters the authorizer looks at. */
  datatype Jwk = Jwk(
    use: Option<string>,
    kty: Option<string>,
    kid: Option<string>,
    x5c: Option<seq<string>>,
    n: Option<string>,
    e: Option<string>,
    nbf: Option<int>)

  /** What the map step builds from a retained key. */
  datatype SigningKey = SigningKey(kid: Option<string>, nbf: Option<int>, publicKey: string)

  /** JavaScript truthiness of an optional string property. */
  predicate Truthy(s: Option<string>)
  {
    s.Some? && s.value != ""
  }

  /** The filter: an RSA signing key with a `kid` and either a certificate chain or a modulus and exponent. */
  predicate IsSigningCandidate(k: Jwk)
  {
    && k.use == Some("sig")
    && k.kty == Some("RSA")
    && Truthy(k.kid)
    && ((k.x5c.Some? && |k.x5c.value| > 0) || (Truthy(k.n) && Truthy(k.e)))
  }

  /** `keys.filter(...)`: the candidates, in their original order (`FilterKeysAppend`). */
  function FilterKeys(keys: seq<Jwk>): (r: seq<Jwk>)
    ensures forall k :: k in r <==> k in keys && IsSigningCandidate(k)
    ensures |r| <= |keys|
  {
    if |keys| == 0 then []
    else (if IsSigningCandidate(keys[0]) then [keys[0]] else []) + FilterKeys(keys[1..])
  }

  /** The filter keeps order: filtering a concatenation filters each part in turn. */
  lemma {:induction false} FilterKeysAppend(a: seq<Jwk>, b: seq<Jwk>)
    ensures FilterKeys(a + b) == FilterKeys(a) + FilterKeys(b)
  {
    if |a| > 0 {
      assert (a + b)[0] == a[0] && (a + b)[1..] == a[1..] + b;
      FilterKeysAppend(a[1..], b);
    } else {
      assert a + b == b;
    }
  }

  /** A single key is kept exactly when it is a candidate. */
  lemma FilterKeysSingle(k: Jwk)
    ensures FilterKeys([k]) == if IsSigningCandidate(k) then [k] else []
  {
    assert [k][1..] == [];
  }

  /** The map step for one key: `certToPEM(key.x5c[0])`, which throws unless `x5c[0]` is a certificate. */
  function ToSigningKey(k: Jwk): (r: Result<SigningKey, AuthError>)
    ensures r.Ok? <==> k.x5c.Some? && |k.x5c.value| > 0 && CertToPem(k.x5c.value[0]).Some?
    ensures r.Ok? ==> r.value.kid == k.kid && r.value.nbf == k.nbf
    ensures r.Ok? ==> r.value.publicKey == CertToPem(k.x5c.value[0]).value
    ensures r.Err? ==> r.error == KeyConversionFailed
  {
    if k.x5c.None? || |k.x5c.value| == 0 then Err(KeyConversionFailed)
    else match CertToPem(k.x5c.value[0])
      case None => Err(KeyConversionFailed)
      case Some(pem) => Ok(SigningKey(k.kid, k.nbf, pem))
  }

  /** `retained.map(...)`: succeeds only if every key converts, and then converts each in place. */
  function ToSigningKeys(ks: seq<Jwk>): (r: Result<seq<SigningKey>, AuthError>)
    ensures r.Ok? <==> forall i :: 0 <= i < |ks| ==> ToSigningKey(ks[i]).Ok?
    ensures r.Ok? ==> |r.value| == |ks| && forall i :: 0 <= i < |ks| ==> r.value[i] == ToSigningKey(ks[i]).value
    ensures r.Err? ==> r.error == KeyConversionFailed
  {
    if |ks| == 0 then Ok([])
    else
      var head :- ToSigningKey(ks[0]);
      var tail := ToSigningKeys(ks[1..]);
      if tail.Err? then
        assert !ToSigningKey(ks[1..][0]).Ok? || exists i :: 0 <= i < |ks| - 1 && !ToSigningKey(ks[1..][i]).Ok?;
        Err(tail.error)
      else Ok([head] + tail.value)
  }

  /** `signingKeys.find(key => key.kid === kid)`, as the index of the first match (`|sks|` when none). */
  function FirstWithKid(sks: seq<SigningKey>, kid: Option<string>): (i: nat)
    ensures i <= |sks|
    ensures forall j :: 0 <= j < i ==> sks[j].kid != kid
    ensures i < |sks| ==> sks[i].kid == kid
  {
    if |sks| == 0 || sks[0].kid == kid then 0 else 1 + FirstWithKid(sks[1..], kid)
  }

  /** `find` itself: the first converted key whose `kid` is the one asked for, if any. */
  function FindByKid(sks: seq<SigningKey>, kid: Option<string>): (r: Option<SigningKey>)
    ensures r.None? <==> forall i :: 0 <= i < |sks| ==> sks[i].kid != kid
    ensures r.Some? ==> exists i :: 0 <= i < |sks| && sks[i] == r.value && r.value.kid == kid &&
                          forall j :: 0 <= j < i ==> sks[j].kid != kid
  {
    var i := FirstWithKid(sks, kid);
    if i == |sks| then None else Some(sks[i])
  }

  /** `getSigningKey(kid)` over the fetched key set: filter, map, emptiness check, find. */
  function GetSigningKey(keys: seq<Jwk>, kid: Option<string>): (r: Result<SigningKey, AuthError>)
    ensures r.Err? ==> r.error in {KeyConversionFailed, SigningKeysEmpty, InvalidSigningKey}
    ensures r.Err? && r.error != KeyConversionFailed ==> Message(r.error).Some?
    ensures r == Err(SigningKeysEmpty) ==> forall i :: 0 <= i < |keys| ==> !IsSigningCandidate(keys[i])
    ensures r.Ok? ==> r.value.kid == kid
  {
    var sks :- ToSigningKeys(FilterKeys(keys));
    if |sks| == 0 then Err(SigningKeysEmpty)
    else match FindByKid(sks, kid)
      case None => Err(InvalidSigningKey)
      case Some(signingKey) => Ok(signingKey)
  }

  /** Reference definition of the lookup in one pass: the first candidate whose `kid` is the one asked for. */
  function FirstCandidateWithKid(keys: seq<Jwk>, kid: Option<string>): (r: Option<Jwk>)
    ensures r.Some? ==> r.value in keys && IsSigningCandidate(r.value) && r.value.kid == kid
    ensures r.Some? ==> exists i :: 0 <= i < |keys| && keys[i] == r.value &&
                          forall j :: 0 <= j < i ==> !(IsSigningCandidate(keys[j]) && keys[j].kid == kid)
    ensures r.None? <==> forall i :: 0 <= i < |keys| && IsSigningCandidate(keys[i]) ==> keys[i].kid != kid
  {
    if |keys| == 0 then None
    else if IsSigningCandidate(keys[0]) && keys[0].kid == kid then Some(keys[0])
    else FirstCandidateWithKid(keys[1..], kid)
  }

  /** Some candidate cannot be turned into a PEM certificate. */
  predicate SomeCandidateUnconvertible(keys: seq<Jwk>)
  {
    exists i :: 0 <= i < |keys| && IsSigningCandidate(keys[i]) && ToSigningKey(keys[i]).Err?
  }

  /** Converting a key list with a first key converts the first key and the rest. */
  lemma ToSigningKeysCons(a: Jwk, rest: seq<Jwk>)
    requires ToSigningKeys([a] + rest).Ok?
    ensures ToSigningKey(a).Ok? && ToSigningKeys(rest).Ok?
    ensures ToSigningKeys([a] + rest).value == [ToSigningKey(a).value] + ToSigningKeys(rest).value
  {
    var ks := [a] + rest;
    assert ks[0] == a && ks[1..] == rest;
  }

  /** `find` looks at the first key, then at the rest. */
  lemma FindByKidCons(sk: SigningKey, rest: seq<SigningKey>, kid: Option<string>)
    ensures FindByKid([sk] + rest, kid) == if sk.kid == kid then Some(sk) else FindByKid(rest, kid)
  {
    var sks := [sk] + rest;
    assert sks[0] == sk && sks[1..] == rest;
  }

  /** Filtering, converting and finding agrees with the one-pass search, key for key. */
  lemma {:induction false} FilterFindAgree(keys: seq<Jwk>, kid: Option<string>)
    requires ToSigningKeys(FilterKeys(keys)).Ok?
    ensures var found := FindByKid(ToSigningKeys(FilterKeys(keys)).value, kid);
            match FirstCandidateWithKid(keys, kid)
            case None => found == None
            case Some(k) => found.Some? && ToSigningKey(k) == Ok(found.value)
  {
    if |keys| > 0 {
      var a := keys[0];
      var rest := FilterKeys(keys[1..]);
      if IsSigningCandidate(a) {
        assert FilterKeys(keys) == [a] + rest;
        ToSigningKeysCons(a, rest);
        FindByKidCons(ToSigningKey(a).value, ToSigningKeys(rest).value, kid);
        FilterFindAgree(keys[1..], kid);
      } else {
        assert FilterKeys(keys) == rest;
        FilterFindAgree(keys[1..], kid);
      }
    }
  }

  /** A candidate that does not convert makes the `map` throw. */
  lemma GetSigningKeyUnconvertible(keys: seq<Jwk>, kid: Option<string>)
    requires SomeCandidateUnconvertible(keys)
    ensures GetSigningKey(keys, kid) == Err(KeyConversionFailed)
  {
    var retained := FilterKeys(keys);
    var i :| 0 <= i < |keys| && IsSigningCandidate(keys[i]) && ToSigningKey(keys[i]).Err?;
    assert keys[i] in retained;
    var j :| 0 <= j < |retained| && retained[j] == keys[i];
    assert ToSigningKeys(retained).Err?;
  }

  /** When every candidate converts, the `map` succeeds. */
  lemma ConvertibleCandidates(keys: seq<Jwk>)
    requires !SomeCandidateUnconvertible(keys)
    ensures ToSigningKeys(FilterKeys(keys)).Ok?
  {
    var retained := FilterKeys(keys);
    forall j | 0 <= j < |retained| ensures ToSigningKey(retained[j]).Ok? {
      assert retained[j] in keys;
    }
  }

  /** The candidates' presence, conversion and `kid` decide the outcome of `getSigningKey`. */
  lemma GetSigningKeyOutcome(keys: seq<Jwk>, kid: Option<string>)
    ensures GetSigningKey(keys, kid) ==
      if SomeCandidateUnconvertible(keys) then Err(KeyConversionFailed)
      else if forall i :: 0 <= i < |keys| ==> !IsSigningCandidate(keys[i]) then Err(SigningKeysEmpty)
      else match FirstCandidateWithKid(keys, kid)
        case None => Err(InvalidSigningKey)
        case Some(k) => ToSigningKey(k)
  {
    if SomeCandidateUnconvertible(keys) {
      GetSigningKeyUnconvertible(keys, kid);
    } else {
      var retained := FilterKeys(keys);
      ConvertibleCandidates(keys);
      FilterFindAgree(keys, kid);
      if forall i :: 0 <= i < |keys| ==> !IsSigningCandidate(keys[i]) {
        assert retained == [];
      } else {
        var i :| 0 <= i < |keys| && IsSigningCandidate(keys[i]);
        assert keys[i] in retained;
      }
    }
  }

  /**
   * A candidate that has a modulus and exponent but no certificate chain makes every
   * lookup fail, even one whose `kid` another, well-formed key matches.
   */
  lemma ModulusOnlyKeyBreaksLookup(keys: seq<Jwk>, i: nat, kid: Option<string>)
    requires i < |keys| && IsSigningCandidate(keys[i])
    requires keys[i].x5c.None? || keys[i].x5c == Some([])
    ensures GetSigningKey(keys, kid) == Err(KeyConversionFailed)
  {
    GetSigningKeyOutcome(keys, kid);
  }

  // ---------------------------------------------------------------------------
  // verifyToken and handler

  datatype JwtHeader = JwtHeader(kid: Option<string>)
  /** `decode(token, { complete: true })`: the part that is read. */
  datatype Jwt = Jwt(header: JwtHeader)
  /** The verified claims; `sub` names the user. */
  datatype JwtPayload = JwtPayload(sub: string)

  /**
   * `verifyToken(authHeader)`. Only header errors are thrown (`Err`): `getToken` runs
   * outside the `try`. A token that decodes to `null` fails when its `header.kid` is
   * read inside the `try`, so it is caught like a key-lookup or signature failure and
   * gives `undefined` (`Ok(None)`); a verified token gives its payload unchanged.
   * `decode` returns `None` for what `jsonwebtoken` decodes to `null`; `verify`
   * returns `None` for every token it rejects (bad signature, expired, ...).
   */
  function VerifyToken(
    authHeader: Option<string>,
    fetchedKeys: Option<seq<Jwk>>,
    decode: string -> Option<Jwt>,
    verify: (string, string) -> Option<JwtPayload>
  ): (r: Result<Option<JwtPayload>, AuthError>)
    ensures r.Err? <==> GetToken(authHeader).Err?
    ensures r.Err? ==> r == Err(GetToken(authHeader).error)
    ensures GetToken(authHeader).Ok? && decode(GetToken(authHeader).value).None? ==> r == Ok(None)
    ensures r.Ok? && r.value.Some? <==>
              && GetToken(authHeader).Ok?
              && decode(GetToken(authHeader).value).Some?
              && fetchedKeys.Some?
              && GetSigningKey(fetchedKeys.value, decode(GetToken(authHeader).value).value.header.kid).Ok?
              && verify(GetToken(authHeader).value,
                        GetSigningKey(fetchedKeys.value, decode(GetToken(authHeader).value).value.header.kid).value.publicKey).Some?
    ensures r.Ok? && r.value.Some? ==>
              r.value == verify(GetToken(authHeader).value,
                                GetSigningKey(fetchedKeys.value, decode(GetToken(authHeader).value).value.header.kid).value.publicKey)
  {
    var token :- GetToken(authHeader);
    match decode(token)
    case None => Ok(None)
    case Some(jwt) =>
      if fetchedKeys.None? then Ok(None)
      else match GetSigningKey(fetchedKeys.value, jwt.header.kid)
        case Err(_) => Ok(None)
        case Ok(signingKey) => Ok(verify(token, signingKey.publicKey))
  }

  datatype Effect = Allow | Deny
  datatype Statement = Statement(action: string, effect: Effect, resource: string)
  datatype PolicyDocument = PolicyDocument(version: string, statement: seq<Statement>)
  datatype AuthorizerResult = AuthorizerResult(principalId: string, policyDocument: PolicyDocument)

  const PolicyVersion: string := "2012-10-17"
  const InvokeAction: string := "execute-api:Invoke"
  const AnonymousPrincipal: string := "user"

  /** The policy the handler answers with: one statement for `execute-api:Invoke` on every resource. */
  function Policy(principalId: string, effect: Effect): (r: AuthorizerResult)
    ensures r.principalId == principalId
    ensures r.policyDocument.version == "2012-10-17"
    ensures |r.policyDocument.statement| == 1
    ensures r.policyDocument.statement[0] == Statement("execute-api:Invoke", effect, "*")
  {
    AuthorizerResult(principalId, PolicyDocument(PolicyVersion, [Statement(InvokeAction, effect, "*")]))
  }

  /**
   * `handler(event)`: never fails. A verified payload gives `Allow` for its subject;
   * any error, thrown or contained, gives `Deny` for the principal "user". Both carry
   * one statement for `execute-api:Invoke` on every resource, under version 2012-10-17.
   */
  function Handler(
    authHeader: Option<string>,
    fetchedKeys: Option<seq<Jwk>>,
    decode: string -> Option<Jwt>,
    verify: (string, string) -> Option<JwtPayload>
  ): (r: AuthorizerResult)
    ensures r.policyDocument.version == PolicyVersion
    ensures |r.policyDocument.statement| == 1
    ensures r.policyDocument.statement[0].action == InvokeAction
    ensures r.policyDocument.statement[0].resource == "*"
    ensures r.policyDocument.statement[0].effect == Allow <==>
              VerifyToken(authHeader, fetchedKeys, decode, verify).Ok? &&
              VerifyToken(authHeader, fetchedKeys, decode, verify).value.Some?
    ensures r.policyDocument.statement[0].effect == Allow ==>
              r.principalId == VerifyToken(authHeader, fetchedKeys, decode, verify).value.value.sub
    ensures r.policyDocument.statement[0].effect == Deny ==> r.principalId == AnonymousPrincipal
  {
    match VerifyToken(authHeader, fetchedKeys, decode, verify)
    case Ok(Some(payload)) => Policy(payload.sub, Allow)
    case _ => Policy(AnonymousPrincipal, Deny)
  }

  /** A missing or empty header, or one with another scheme, is denied whatever else holds. */
  lemma HandlerDeniesBadHeader(
    authHeader: Option<string>,
    fetchedKeys: Option<seq<Jwk>>,
    decode: string -> Option<Jwt>,
    verify: (string, string) -> Option<JwtPayload>)
    requires authHeader.None? || !StartsWith(ToLower(authHeader.value), BearerPrefix)
    ensures Handler(authHeader, fetchedKeys, decode, verify) == Policy(AnonymousPrincipal, Deny)
  {
    assert GetToken(authHeader).Err?;
  }

  /** A token whose `kid` names no candidate key in the set is denied, whatever `verify` would say. */
  lemma HandlerDeniesUnknownKid(
    authHeader: Option<string>,
    keys: seq<Jwk>,
    decode: string -> Option<Jwt>,
    verify: (string, string) -> Option<JwtPayload>)
    requires GetToken(authHeader).Ok? && decode(GetToken(authHeader).value).Some?
    requires forall i :: 0 <= i < |keys| && IsSigningCandidate(keys[i]) ==>
               keys[i].kid != decode(GetToken(authHeader).value).value.header.kid
    ensures Handler(authHeader, Some(keys), decode, verify) == Policy(AnonymousPrincipal, Deny)
  {
    var kid := decode(GetToken(authHeader).value).value.header.kid;
    GetSigningKeyOutcome(keys, kid);
    NoCandidateWithKid(keys, kid);
  }

  lemma {:induction false} NoCandidateWithKid(keys: seq<Jwk>, kid: Option<string>)
    requires forall i :: 0 <= i < |keys| && IsSigningCandidate(keys[i]) ==> keys[i].kid != kid
    ensures FirstCandidateWithKid(keys, kid) == None
  {
    if |keys| > 0 {
      assert forall i :: 0 <= i < |keys| - 1 && IsSigningCandidate(keys[1..][i]) ==> keys[1..][i].kid != kid by {
        forall i | 0 <= i < |keys| - 1 ensures keys[1..][i] == keys[i + 1] { }
      }
      NoCandidateWithKid(keys[1..], kid);
    }
  }

  /**
   * The success path end to end: a bearer header in any case, a token that decodes,
   * a key set whose candidates all carry certificates and in which the token's `kid`
   * is found, and a signature that verifies, give `Allow` for the payload's subject.
   */
  lemma HandlerAllows(
    scheme: string,
    token: string,
    keys: seq<Jwk>,
    decode: string -> Option<Jwt>,
    verify: (string, string) -> Option<JwtPayload>)
    requires |scheme| == 7 && ToLower(scheme) == BearerPrefix && ' ' !in token
    requires decode(token).Some?
    requires !SomeCandidateUnconvertible(keys)
    requires FirstCandidateWithKid(keys, decode(token).value.header.kid).Some?
    requires ToSigningKey(FirstCandidateWithKid(keys, decode(token).value.header.kid).value).Ok?
    requires verify(token, ToSigningKey(FirstCandidateWithKid(keys, decode(token).value.header.kid).value).value.publicKey).Some?
    ensures Handler(Some(scheme + token), Some(keys), decode, verify) ==
              Policy(verify(token, ToSigningKey(FirstCandidateWithKid(keys, decode(token).value.header.kid).value).value.publicKey).value.sub, Allow)
  {
    GetTokenAfterScheme(scheme, token);
    TakeUntilWhole(token, ' ');
    var kid := decode(token).value.header.kid;
    GetSigningKeyOutcome(keys, kid);
  }

  lemma {:induction false} TakeUntilWhole(s: string, c: char)
    requires c !in s
    ensures TakeUntil(s, c) == s
  {
    if |s| > 0 {
      TakeUntilWhole(s[1..], c);
      assert s == [s[0]] + s[1..];
    }
  }
}
