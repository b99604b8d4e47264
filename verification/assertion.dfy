/**
 The signed assertion the handler sends upstream: its claims set (registered
 claims of section 4.1 of RFC 7519, times as NumericDate seconds of section 2),
 the options handed to the RS256 signer, and the request that carries the
 token, the key identifier and the email.
 */
module Assertion {
  import opened Options
  import opened Js
  import Hex

  /** The values the server reads from its environment at start-up. */
  datatype Config = Config(appId: string, organizationId: string, issuer: string, audience: string)

  /** Lifetime of an assertion in seconds: ten minutes. */
  const Lifetime := 60 * 10

  datatype Claims = Claims(
    iss: string, sub: string, workvivoId: string, aud: string,
    iat: int, nbf: int, exp: int, state: string)

  /** `Math.floor(Date.now() / 1000)`: Dafny's `/` rounds down for a positive divisor. */
  function CurrentTime(nowMs: int): (t: int)
    ensures t * 1000 <= nowMs < t * 1000 + 1000
  {
    nowMs / 1000
  }

  /** The payload built at the time nowMs from the configuration and the 32
      bytes of the random source. The `jti` claim is not part of it. */
  function BuildClaims(nowMs: int, config: Config, random: seq<Hex.byte>): (c: Claims)
    requires |random| == 32
    ensures ClaimsFor(c, nowMs, config, random)
  {
    var currentTime := CurrentTime(nowMs);
    Claims(config.issuer, "app", config.appId, config.audience,
           currentTime, currentTime, currentTime + Lifetime, Hex.RandomHexString(random))
  }

  /** What the claims of a request at nowMs with these random bytes must be. */
  predicate ClaimsFor(c: Claims, nowMs: int, config: Config, random: seq<Hex.byte>) {
    && c.iss == config.issuer && c.sub == "app" && c.workvivoId == config.appId && c.aud == config.audience
    && c.iat * 1000 <= nowMs < c.iat * 1000 + 1000
    && c.nbf == c.iat && c.exp == c.iat + 600
    && |c.state| == 64 && Hex.IsHexString(c.state) && Hex.Decode(c.state) == Some(random)
  }

  /** The requirements pin the claims down: only one claims set meets them. */
  lemma ClaimsForUnique(c1: Claims, c2: Claims, nowMs: int, config: Config, random: seq<Hex.byte>)
    requires ClaimsFor(c1, nowMs, config, random) && ClaimsFor(c2, nowMs, config, random)
    ensures c1 == c2
  {
    Hex.EncodeDecode(c1.state);
    Hex.EncodeDecode(c2.state);
  }

  /** Different random bytes give different `state` values. */
  lemma StateDistinguishes(nowMs: int, config: Config, r1: seq<Hex.byte>, r2: seq<Hex.byte>)
    requires |r1| == 32 && |r2| == 32 && r1 != r2
    ensures BuildClaims(nowMs, config, r1).state != BuildClaims(nowMs, config, r2).state
  {
  }

  /** The claims set as the JSON object the signer serialises. */
  function ClaimsObject(c: Claims): Json {
    JObj(map["iss" := JStr(c.iss), "sub" := JStr(c.sub), "workvivo_id" := JStr(c.workvivoId),
             "aud" := JStr(c.aud), "iat" := JNum(c.iat), "nbf" := JNum(c.nbf), "exp" := JNum(c.exp),
             "state" := JStr(c.state)])
  }

  /** The string under a name; None when it is absent or not a string. */
  function StringMember(members: map<string, Json>, name: string): (r: Option<string>)
    ensures forall s :: r == Some(s) <==> Lookup(members, name) == Some(JStr(s))
  {
    match Lookup(members, name)
    case Some(JStr(s)) => Some(s)
    case _ => None
  }

  /** The number under a name; None when it is absent or not a number. */
  function NumberMember(members: map<string, Json>, name: string): (r: Option<int>)
    ensures forall n :: r == Some(n) <==> Lookup(members, name) == Some(JNum(n))
  {
    match Lookup(members, name)
    case Some(JNum(n)) => Some(n)
    case _ => None
  }

  /** Reads a claims set back out of a JSON object, as a verifier decodes a
      payload: every claim must be present with the right type. */
  function ParseClaims(j: Json): Option<Claims> {
    if !j.JObj? then None
    else
      var m := j.members;
      var iss, sub, workvivoId, aud := StringMember(m, "iss"), StringMember(m, "sub"),
        StringMember(m, "workvivo_id"), StringMember(m, "aud");
      var iat, nbf, exp, state := NumberMember(m, "iat"), NumberMember(m, "nbf"),
        NumberMember(m, "exp"), StringMember(m, "state");
      if iss.Some? && sub.Some? && workvivoId.Some? && aud.Some?
         && iat.Some? && nbf.Some? && exp.Some? && state.Some?
      then Some(Claims(iss.value, sub.value, workvivoId.value, aud.value,
                       iat.value, nbf.value, exp.value, state.value))
      else None
  }

  /** The payload has exactly the eight claims, and no `jti`. */
  lemma ClaimsObjectNames(c: Claims)
    ensures ClaimsObject(c).members.Keys
         == {"iss", "sub", "workvivo_id", "aud", "iat", "nbf", "exp", "state"}
    ensures Lookup(ClaimsObject(c).members, "jti") == None
  {
  }

  /** Each claim is found under its own name in the payload. */
  lemma ClaimsObjectLookups(c: Claims)
    ensures HasClaims(ClaimsObject(c).members, c)
  {
  }

  /** Members that carry every claim of c under its registered name. */
  predicate HasClaims(m: map<string, Json>, c: Claims) {
    && Lookup(m, "iss") == Some(JStr(c.iss)) && Lookup(m, "sub") == Some(JStr(c.sub))
    && Lookup(m, "workvivo_id") == Some(JStr(c.workvivoId)) && Lookup(m, "aud") == Some(JStr(c.aud))
    && Lookup(m, "iat") == Some(JNum(c.iat)) && Lookup(m, "nbf") == Some(JNum(c.nbf))
    && Lookup(m, "exp") == Some(JNum(c.exp)) && Lookup(m, "state") == Some(JStr(c.state))
  }

  /** An object parses as c exactly when it carries the claims of c, whatever
      else it holds. */
  lemma ParseHasClaims(m: map<string, Json>, c: Claims)
    ensures ParseClaims(JObj(m)) == Some(c) <==> HasClaims(m, c)
  {
  }

  /** The payload reads back as the claims it was built from. */
  lemma ClaimsObjectRoundTrip(c: Claims)
    ensures ParseClaims(ClaimsObject(c)) == Some(c)
  {
    ClaimsObjectLookups(c);
    ParseHasClaims(ClaimsObject(c).members, c);
  }

  /** The options handed to `jwt.sign`: the algorithm and the protected-header
      `kid` (section 4.1.4 of RFC 7515). */
  datatype SignOptions = SignOptions(algorithm: string, headerKid: Value)

  function SignOptionsFor(kid: Value): (o: SignOptions)
    ensures o.algorithm == "RS256" && o.headerKid == kid
  {
    SignOptions("RS256", kid)
  }

  /** The upstream call: HTTP method, URL, headers in order, and the JSON the body
      text serialises. */
  datatype Request = Request(verb: string, url: string, headers: seq<(string, Value)>, body: Json)

  const OtpUrl := "https://api.workvivo.io/v1/unwired/users/otp"

  function UpstreamRequest(config: Config, token: string, kid: Value, email: Value): (r: Request)
    ensures r.verb == "POST" && r.url == OtpUrl
    ensures |r.headers| == 4 && DistinctKeys(r.headers)
  {
    Request("POST", OtpUrl,
      [("Content-Type", Val(JStr("application/json"))),
       ("Workvivo-Id", Val(JStr(config.organizationId))),
       ("x-workvivo-jwt", Val(JStr(token))),
       ("x-workvivo-jwt-keyid", kid)],
      Stringified([("email", email)]))
  }

  /** The value of a request header, undefined when absent. */
  function Header(r: Request, name: string): Value {
    FieldValue(r.headers, name)
  }

  /** One token and one key identifier bind the request together, and the
      body carries the email alone. */
  lemma UpstreamRequestBinding(config: Config, token: string, kid: Value, email: Value)
    requires email.Val?
    ensures var r := UpstreamRequest(config, token, kid, email);
      && r.verb == "POST" && r.url == OtpUrl
      && Header(r, "x-workvivo-jwt") == Val(JStr(token))
      && Header(r, "x-workvivo-jwt-keyid") == kid
      && Header(r, "Workvivo-Id") == Val(JStr(config.organizationId))
      && Header(r, "Content-Type") == Val(JStr("application/json"))
      && r.body.members == map["email" := email.json]
  {
    var r := UpstreamRequest(config, token, kid, email);
    assert DistinctKeys(r.headers);
    FieldValueDistinct(r.headers, 0);
    FieldValueDistinct(r.headers, 1);
    FieldValueDistinct(r.headers, 2);
    FieldValueDistinct(r.headers, 3);
    assert [("email", email)][..0] == [];
    assert Stringified([("email", email)]) == JObj(map["email" := email.json]);
  }
}
