/**
 The `/generate-otp` handler: validation of the posted email, the reads of
 the key files and the key discovery document, the signed assertion, the
 upstream request and, once the HTTP client calls back, the reply. Every
 exception thrown before the request is sent is caught by the handler's
 `try` and becomes a 500 with the exception's message.
 */
module Handler {
  import opened Options
  import opened Js
  import Hex
  import Jwks
  import opened Assertion
  import opened Upstream

  /** What the handler reads from outside at request time: the clock in
      milliseconds, the private key file, the key discovery document read and
      parsed, the 32 random bytes of `state`, and the public key file. A read
      that fails carries the exception it throws. */
  datatype World = World(
    nowMs: int,
    privateKey: Completion<string>,
    jwks: Completion<Json>,
    random: seq<Hex.byte>,
    publicKey: Completion<string>)

  /** `jwt.sign(payload, privateKey, options)`: the token or the exception. */
  type Signer = (Json, string, SignOptions) -> Completion<string>

  /** `jwt.verify(token, publicKey, ...)`: the decoded payload or the exception. */
  type Verifier = (string, string) -> Completion<Json>

  /** The HTTP client: the arguments it calls the callback with for a request. */
  type Transport = Request -> CallbackArgs

  /** How the handler's synchronous part ends: a reply, or the upstream call. */
  datatype Prepared = Reject(reply: Reply) | Call(request: Request)

  const EmailRequired := "Email is required"

  /** A thrown exception caught by the handler's outer `try`. */
  function Caught(e: Exception): Reply {
    ErrorReply(500, e.message)
  }

  /** The synchronous part of the handler, in source order. The verifier's
      result is only logged, and its exceptions are caught by the inner `try`. */
  function Prepare(w: World, config: Config, sign: Signer, verify: Verifier, reqBody: Value): (p: Prepared)
    requires |w.random| == 32
    ensures p.Reject? ==> p.reply.body.JObj? && p.reply.body.members.Keys == {"error"}
    ensures p.Reject? ==> p.reply.status == 400 || p.reply.status == 500
    ensures p.Reject? && p.reply.status == 400
        <==> Get(reqBody, Email).Normal? && !Truthy(Get(reqBody, Email).value)
    ensures p.Call? ==> p.request.verb == "POST" && p.request.url == OtpUrl
  {
    match Get(reqBody, Email)
    case Throw(e) => Reject(Caught(e))
    case Normal(email) =>
      if !Truthy(email) then Reject(ErrorReply(400, EmailRequired))
      else
        match SignedRequest(w, config, sign, email)
        case Throw(e) => Reject(Caught(e))
        case Normal(signed) =>
          match w.publicKey
          case Throw(e) => Reject(Caught(e))
          case Normal(publicKey) =>
            var _ := verify(signed.token, publicKey);
            Call(signed.request)
  }

  /** The token and the request options that carry it. */
  datatype Signed = Signed(token: string, request: Request)

  /** From the private key read to the request options: the key, the kid of
      the document's first key, the claims, the token. */
  function SignedRequest(w: World, config: Config, sign: Signer, email: Value): Completion<Signed>
    requires |w.random| == 32
  {
    var privateKey :- w.privateKey;
    var jwks :- w.jwks;
    var kid :- Jwks.KidOf(jwks);
    var claims := BuildClaims(w.nowMs, config, w.random);
    var token :- sign(ClaimsObject(claims), privateKey, SignOptionsFor(kid));
    Normal(Signed(token, UpstreamRequest(config, token, kid, email)))
  }

  /** The whole request: a reply of the synchronous part, or the callback's
      outcome for what the HTTP client answers. */
  function Handle(w: World, config: Config, sign: Signer, verify: Verifier, send: Transport, reqBody: Value): (o: Outcome)
    requires |w.random| == 32
    ensures o.Crashed? ==> Prepare(w, config, sign, verify, reqBody).Call?
  {
    match Prepare(w, config, sign, verify, reqBody)
    case Reject(reply) => Replied(reply)
    case Call(req) => OnResponse(send(req))
  }

  /* ---------------- properties ---------------- */

  /** The email the handler reads from the posted body. */
  function PostedEmail(reqBody: Value): Value
    requires reqBody != Undefined && reqBody != Val(JNull)
  {
    Get(reqBody, Email).value
  }

  /** A falsy email (absent, null, "", 0 or false) is answered 400 before any
      file is read, anything is signed or the upstream is called: the reply
      depends on nothing else. */
  lemma FalsyEmailRejected(w: World, config: Config, sign: Signer, verify: Verifier, send: Transport, reqBody: Value)
    requires |w.random| == 32 && reqBody != Undefined && reqBody != Val(JNull)
    requires !Truthy(PostedEmail(reqBody))
    ensures Prepare(w, config, sign, verify, reqBody) == Reject(ErrorReply(400, EmailRequired))
    ensures Handle(w, config, sign, verify, send, reqBody) == Replied(ErrorReply(400, EmailRequired))
    ensures PostedEmail(reqBody) in {Undefined, Val(JNull), Val(JBool(false)), Val(JNum(0)), Val(JStr(""))}
  {
    hide OnResponse;
    FalsyValues(PostedEmail(reqBody));
  }

  /** A body without an `email` member, and in particular the empty object,
      is rejected the same way. */
  lemma MissingEmailRejected(w: World, config: Config, sign: Signer, verify: Verifier, members: map<string, Json>)
    requires |w.random| == 32 && "email" !in members
    ensures Prepare(w, config, sign, verify, Val(JObj(members))) == Reject(ErrorReply(400, EmailRequired))
  {
    GetMember(members, Email);
  }

  /** A posted body that is undefined or null fails on reading `email`; the
      TypeError becomes a 500. */
  lemma NoBodyFails(w: World, config: Config, sign: Signer, verify: Verifier, reqBody: Value)
    requires |w.random| == 32 && (reqBody == Undefined || reqBody == Val(JNull))
    ensures Prepare(w, config, sign, verify, reqBody)
         == Reject(ErrorReply(500, ReadError(if reqBody == Undefined then "undefined" else "null", "email").message))
  {
  }

  /** The request goes upstream exactly when the email is truthy and every
      step after it succeeds: the private key read, the document, its kid,
      the signature and the public key read. */
  lemma CallExactly(w: World, config: Config, sign: Signer, verify: Verifier, reqBody: Value)
    requires |w.random| == 32 && reqBody != Undefined && reqBody != Val(JNull)
    ensures Prepare(w, config, sign, verify, reqBody).Call?
        <==> && Truthy(PostedEmail(reqBody))
             && w.privateKey.Normal? && w.jwks.Normal? && Jwks.KidOf(w.jwks.value).Normal?
             && sign(ClaimsObject(BuildClaims(w.nowMs, config, w.random)), w.privateKey.value,
                     SignOptionsFor(Jwks.KidOf(w.jwks.value).value)).Normal?
             && w.publicKey.Normal?
  {
  }

  /** The first of the steps after validation to throw decides the reply:
      a 500 whose error is that exception's message. */
  lemma FirstFailureReplied(w: World, config: Config, sign: Signer, verify: Verifier, reqBody: Value, e: Exception)
    requires |w.random| == 32 && reqBody != Undefined && reqBody != Val(JNull)
    requires Truthy(PostedEmail(reqBody))
    ensures w.privateKey == Throw(e)
        ==> Prepare(w, config, sign, verify, reqBody) == Reject(ErrorReply(500, e.message))
    ensures w.privateKey.Normal? && w.jwks == Throw(e)
        ==> Prepare(w, config, sign, verify, reqBody) == Reject(ErrorReply(500, e.message))
    ensures w.privateKey.Normal? && w.jwks.Normal? && Jwks.KidOf(w.jwks.value) == Throw(e)
        ==> Prepare(w, config, sign, verify, reqBody) == Reject(ErrorReply(500, e.message))
    ensures w.privateKey.Normal? && w.jwks.Normal? && Jwks.KidOf(w.jwks.value).Normal?
        && sign(ClaimsObject(BuildClaims(w.nowMs, config, w.random)), w.privateKey.value,
                SignOptionsFor(Jwks.KidOf(w.jwks.value).value)) == Throw(e)
        ==> Prepare(w, config, sign, verify, reqBody) == Reject(ErrorReply(500, e.message))
    ensures SignedRequest(w, config, sign, PostedEmail(reqBody)).Normal? && w.publicKey == Throw(e)
        ==> Prepare(w, config, sign, verify, reqBody) == Reject(ErrorReply(500, e.message))
  {
  }

  /** A document with an empty `keys` array is a 500 with V8's message for
      reading `kid` of undefined. */
  lemma EmptyKeysFails(w: World, config: Config, sign: Signer, verify: Verifier, reqBody: Value, members: map<string, Json>)
    requires |w.random| == 32 && reqBody != Undefined && reqBody != Val(JNull)
    requires Truthy(PostedEmail(reqBody)) && w.privateKey.Normal?
    requires w.jwks == Normal(JObj(members)) && Lookup(members, "keys") == Some(JArr([]))
    ensures Prepare(w, config, sign, verify, reqBody)
         == Reject(ErrorReply(500, ReadError("undefined", "kid").message))
  {
    Jwks.KidOfFailures(members);
  }

  /** Whatever the self-check does, including throwing, the handler goes on
      as if it had not run. */
  lemma VerifierIgnored(w: World, config: Config, sign: Signer, v1: Verifier, v2: Verifier, send: Transport, reqBody: Value)
    requires |w.random| == 32
    ensures Prepare(w, config, sign, v1, reqBody) == Prepare(w, config, sign, v2, reqBody)
    ensures Handle(w, config, sign, v1, send, reqBody) == Handle(w, config, sign, v2, send, reqBody)
  {
    hide OnResponse;
  }

  /** Without the upstream call the outcome is the synchronous reply; with it,
      the callback's outcome for the client's answer to that very request. */
  lemma HandleOfPrepared(w: World, config: Config, sign: Signer, verify: Verifier, send: Transport, reqBody: Value)
    requires |w.random| == 32
    ensures var p := Prepare(w, config, sign, verify, reqBody);
      Handle(w, config, sign, verify, send, reqBody)
      == if p.Reject? then Replied(p.reply) else OnResponse(send(p.request))
  {
    hide OnResponse;
  }

  /** The request that goes upstream: a POST to the OTP endpoint whose token
      header is the signer's token for the claims of this request time,
      config and random bytes, signed RS256 with the document's kid as header
      `kid`; the same kid is the key-id header, and the body is the email. */
  lemma CallContent(w: World, config: Config, sign: Signer, verify: Verifier, reqBody: Value)
    requires |w.random| == 32 && reqBody != Undefined && reqBody != Val(JNull)
    requires Prepare(w, config, sign, verify, reqBody).Call?
    ensures var req := Prepare(w, config, sign, verify, reqBody).request;
      var kid := Jwks.KidOf(w.jwks.value).value;
      var claims := BuildClaims(w.nowMs, config, w.random);
      && ClaimsFor(claims, w.nowMs, config, w.random)
      && var token := sign(ClaimsObject(claims), w.privateKey.value, SignOptionsFor(kid));
      && token.Normal? && Header(req, "x-workvivo-jwt") == Val(JStr(token.value))
      && SignOptionsFor(kid).algorithm == "RS256" && SignOptionsFor(kid).headerKid == kid
      && Header(req, "x-workvivo-jwt-keyid") == kid
      && Header(req, "Workvivo-Id") == Val(JStr(config.organizationId))
      && Header(req, "Content-Type") == Val(JStr("application/json"))
      && req.verb == "POST" && req.url == OtpUrl
      && req.body.members == map["email" := PostedEmail(reqBody).json]
  {
    var email := PostedEmail(reqBody);
    var kid := Jwks.KidOf(w.jwks.value).value;
    var claims := BuildClaims(w.nowMs, config, w.random);
    var token := sign(ClaimsObject(claims), w.privateKey.value, SignOptionsFor(kid)).value;
    UpstreamRequestBinding(config, token, kid, email);
  }

  /** With the provisioned key discovery document the key-id header is the
      32-character hex identifier of its only key. */
  lemma ProvisionedKeyId(w: World, config: Config, sign: Signer, verify: Verifier, reqBody: Value,
                         kidBytes: seq<Hex.byte>, e: string, n: string)
    requires |w.random| == 32 && reqBody != Undefined && reqBody != Val(JNull)
    requires |kidBytes| == 16 && w.jwks == Normal(Jwks.ProvisionedSet(kidBytes, e, n))
    requires Prepare(w, config, sign, verify, reqBody).Call?
    ensures Header(Prepare(w, config, sign, verify, reqBody).request, "x-workvivo-jwt-keyid")
         == Val(JStr(Hex.Encode(kidBytes)))
  {
    Jwks.ProvisionedKid(kidBytes, e, n);
    CallContent(w, config, sign, verify, reqBody);
  }

  /** Once the request is sent, a transport error or a body that does not
      parse escapes the callback: the client gets no reply from it. */
  lemma SentFailureCrashes(w: World, config: Config, sign: Signer, verify: Verifier, send: Transport, reqBody: Value)
    requires |w.random| == 32 && Prepare(w, config, sign, verify, reqBody).Call?
    requires var a := send(Prepare(w, config, sign, verify, reqBody).request);
      a.TransportFailure? || a.body.Unparseable?
    ensures Handle(w, config, sign, verify, send, reqBody).Crashed?
  {
    hide IsoDate.ToIsoString;
    HandleOfPrepared(w, config, sign, verify, send, reqBody);
    OnResponseDivergence(send(Prepare(w, config, sign, verify, reqBody).request));
  }

  /** A request that goes upstream and is answered 201 with status "success"
      and a numeric `expires_at` in the date range is answered 200 with the
      upstream message and the renamed data, `expiresAt` being the date string. */
  lemma SentSuccessReplied(w: World, config: Config, sign: Signer, verify: Verifier, send: Transport, reqBody: Value,
                           members: map<string, Json>, data: map<string, Json>, x: int)
    requires |w.random| == 32 && Prepare(w, config, sign, verify, reqBody).Call?
    requires send(Prepare(w, config, sign, verify, reqBody).request) == Received(201, Parsed(JObj(members)))
    requires IsSuccess(201, JObj(members)) && Lookup(members, "data") == Some(JObj(data))
    requires Lookup(data, "expires_at") == Some(JNum(x)) && InDateRange(x)
    ensures var r := Handle(w, config, sign, verify, send, reqBody);
      var renamed := Stringified(RenamedData(data, Val(JStr(ExpiryString(x)))));
      && r.Replied? && r.reply.status == 200
      && Lookup(r.reply.body.members, "status") == Some(JStr("success"))
      && Lookup(r.reply.body.members, "message") == Lookup(members, "message")
      && Lookup(r.reply.body.members, "data") == Some(renamed)
      && Lookup(renamed.members, "expiresAt") == Some(JStr(ExpiryString(x)))
  {
    hide IsoDate.ToIsoString;
    HandleOfPrepared(w, config, sign, verify, send, reqBody);
    SuccessReplyContent(members, data, x);
  }

  /** A request that goes upstream and is answered with a parsed object that
      is not a success is answered with the upstream status code and the
      failure reply. */
  lemma SentFailureReplayed(w: World, config: Config, sign: Signer, verify: Verifier, send: Transport, reqBody: Value,
                            code: int, members: map<string, Json>)
    requires |w.random| == 32 && Prepare(w, config, sign, verify, reqBody).Call?
    requires send(Prepare(w, config, sign, verify, reqBody).request) == Received(code, Parsed(JObj(members)))
    requires !IsSuccess(code, JObj(members))
    ensures var r := Handle(w, config, sign, verify, send, reqBody);
      && r.Replied? && r.reply.status == code
      && Lookup(r.reply.body.members, "details") == Some(JObj(members))
  {
    hide IsoDate.ToIsoString;
    HandleOfPrepared(w, config, sign, verify, send, reqBody);
    NonSuccessReplayed(code, members);
    FailureReplyContent(code, members);
  }
}
