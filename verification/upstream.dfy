/**
 The callback the handler gives to the HTTP client: how the upstream answer
 (a status code and a body text, or a transport error) becomes the reply to
 the browser. The callback runs outside the handler's try block, so an
 exception thrown in it is not turned into a reply: it is uncaught.
 */
module Upstream {
  import opened Options
  import opened Js
  import IsoDate

  /** The body text of the upstream answer, through `JSON.parse`. */
  datatype Body = Parsed(json: Json) | Unparseable(error: Exception)

  /** The two ways the HTTP client calls back: with an error and no response,
      or with a response. */
  datatype CallbackArgs = TransportFailure(message: string) | Received(statusCode: int, body: Body)

  /** An HTTP status and the JSON `res.json` serialises. */
  datatype Reply = Reply(status: int, body: Json)

  /** What a callback run amounts to: a reply sent, or an exception that
      escapes it. */
  datatype Outcome = Replied(reply: Reply) | Crashed(exception: Exception)

  const DefaultError := "Failed to generate OTP"

  /** The RangeError `toISOString` throws for an invalid date. */
  const InvalidTime := Exception(RangeError, "Invalid time value")

  /** `{error: message}` with a status. */
  function ErrorReply(status: int, message: string): (r: Reply)
    ensures r.status == status && r.body.JObj?
    ensures Lookup(r.body.members, "error") == Some(JStr(message)) && r.body.members.Keys == {"error"}
  {
    Reply(status, JObj(map["error" := JStr(message)]))
  }

  /** `new Date(v * 1000).toISOString()`: the multiplication converts v with
      ToNumber, which throws for a value without a primitive; NaN makes an
      invalid date, and so does a time value beyond TimeClip's bound. */
  function ExpiresAtIso(v: Value): (r: Completion<Value>)
    ensures r.Throw? ==> r.exception == InvalidTime || r.exception == NoPrimitive
    ensures r == Throw(NoPrimitive) <==> v.Val? && Unconvertible(v.json)
    ensures r.Normal? ==> r.value.Val? && r.value.json.JStr?
  {
    var number :- ToNumber(v);
    match number
    case NaN => Throw(InvalidTime)
    case Finite(x) =>
      match IsoDate.ToIsoString(x * 1000)
      case None => Throw(InvalidTime)
      case Some(s) => Normal(Val(JStr(s)))
  }

  /** `response.statusCode === 201 && responseData.status === 'success'`:
      the status member is read only for a 201. */
  function SuccessCheck(code: int, body: Json): (r: Completion<bool>)
    ensures r.Normal? ==> (r.value <==> IsSuccess(code, body))
  {
    if code != 201 then Normal(false)
    else
      var status :- Get(Val(body), Status);
      Normal(status == Val(JStr("success")))
  }

  /** The success reply, with its reads in the order the object literal makes them:
      `status`, then the `data` fields, then `message`. */
  function SuccessReply(body: Json): (r: Completion<Reply>)
    ensures r.Normal? ==> r.value.status == 200
  {
    var status :- Get(Val(body), Status);
    // once `status` is read the body is an object, and no later read of it throws
    var data := Get(Val(body), Data).value;
    var renamed :- DataReply(data);
    var message := Get(Val(body), Message).value;
    Normal(Reply(200, Stringified([("status", status), ("data", Val(renamed)), ("message", message)])))
  }

  /** The `data` object of the success reply; every field reads `responseData.data`
      afresh, so the first read fails when it is undefined or null. */
  function DataReply(data: Value): Completion<Json> {
    var oneTimePasscode :- Get(data, OneTimePasscode);
    // the first read succeeded, so `data` is neither undefined nor null
    var expiresAtValue := Get(data, ExpiresAt).value;
    var expiresAt :- ExpiresAtIso(expiresAtValue);
    var contact :- ContactFields(data);
    Normal(Stringified([("oneTimePasscode", oneTimePasscode), ("expiresAt", expiresAt)] + contact))
  }

  /** The last four fields of the reply's data, read in order. */
  function ContactFields(data: Value): Completion<seq<(string, Value)>> {
    var email :- Get(data, Email);
    // as in DataReply, only the first read can throw
    var workvivoUserId := Get(data, WorkvivoUserId).value;
    var organisationId := Get(data, OrganisationId).value;
    var loginUrl := Get(data, LoginUrl).value;
    Normal([("email", email), ("workvivoUserId", workvivoUserId),
            ("organisationId", organisationId), ("loginUrl", loginUrl)])
  }

  /** Every other answer: the upstream status, `message || 'Failed to generate OTP'`
      as the error, and the whole parsed body as details. */
  function FailureReply(code: int, body: Json): (r: Completion<Reply>)
    ensures r.Normal? ==> r.value.status == code
  {
    var message :- Get(Val(body), Message);
    Normal(Reply(code, Stringified([("error", MessageOrDefault(message)), ("details", Val(body))])))
  }

  /** `message || 'Failed to generate OTP'`: a truthy message, else the fixed text. */
  function MessageOrDefault(message: Value): (r: Value)
    ensures Truthy(r)
    ensures Truthy(message) ==> r == message
    ensures !Truthy(message) ==> r == Val(JStr(DefaultError))
  {
    if Truthy(message) then message else Val(JStr(DefaultError))
  }

  /** The reply to a parsed upstream answer. */
  function MapParsed(code: int, body: Json): (r: Completion<Reply>)
    ensures r.Normal? ==> r.value.status == 200 || r.value.status == code
    ensures r.Normal? && r.value.status != code ==> IsSuccess(code, body)
  {
    var success :- SuccessCheck(code, body);
    if success then SuccessReply(body) else FailureReply(code, body)
  }

  function Settle(c: Completion<Reply>): (o: Outcome)
    ensures c.Normal? <==> o.Replied?
  {
    match c
    case Normal(reply) => Replied(reply)
    case Throw(e) => Crashed(e)
  }

  /** The callback as written: its first statement parses `response.body`
      before the error check, so a transport error fails on reading `body`
      of an undefined response, and an unparseable body throws the parse
      error; neither reaches the 500 replies further down. */
  function OnResponse(a: CallbackArgs): (o: Outcome)
    ensures o.Replied? ==> a.Received? && a.body.Parsed?
    ensures o.Replied? ==> o.reply.status == 200 || o.reply.status == a.statusCode
  {
    match a
    case TransportFailure(_) => Crashed(ReadError("undefined", "body"))
    case Received(code, body) =>
      match body
      case Unparseable(e) => Crashed(e)
      case Parsed(json) => Settle(MapParsed(code, json))
  }

  /** The callback its error branches describe: a 500 for a transport error
      and for a body that does not parse. */
  function OnResponseIntended(a: CallbackArgs): (o: Outcome)
    ensures !(a.Received? && a.body.Parsed?) ==> o.Replied? && o.reply.status == 500
    ensures o.Replied? ==> o.reply.status == 500 || o.reply.status == 200 || o.reply.status == a.statusCode
  {
    match a
    case TransportFailure(message) => Replied(ErrorReply(500, "Error making request: " + message))
    case Received(code, body) =>
      match body
      case Unparseable(_) => Replied(ErrorReply(500, "Invalid response from API"))
      case Parsed(json) => Settle(MapParsed(code, json))
  }

  /* ---------------- properties ---------------- */

  /** The callback as written and the one its error branches describe agree
      exactly on the answers that arrive with a parseable body. */
  lemma OnResponseDivergence(a: CallbackArgs)
    ensures OnResponse(a) == OnResponseIntended(a) <==> a.Received? && a.body.Parsed?
    ensures !(a.Received? && a.body.Parsed?) ==> OnResponse(a).Crashed? && OnResponseIntended(a).Replied?
  {
  }

  /** An upstream success: status 201 and a `status` member equal to the string "success". */
  predicate IsSuccess(code: int, body: Json) {
    code == 201 && body.JObj? && Lookup(body.members, "status") == Some(JStr("success"))
  }

  /** The success test reads a member only of a 201 answer, fails only on a null
      body, and otherwise holds exactly for an upstream success. */
  lemma SuccessCheckExact(code: int, body: Json)
    ensures SuccessCheck(code, body).Throw? <==> code == 201 && body == JNull
    ensures SuccessCheck(code, body).Normal? ==> (SuccessCheck(code, body).value <==> IsSuccess(code, body))
  {
  }

  /** A parsed answer gets the reply MapParsed gives it, or crashes with its exception. */
  lemma OnParsed(code: int, body: Json)
    ensures OnResponse(Received(code, Parsed(body))) == Settle(MapParsed(code, body))
  {
    hide IsoDate.ToIsoString;
  }

  /** The reply to an answer that is not a success is the failure reply. */
  lemma MapParsedFailure(code: int, body: Json)
    requires !IsSuccess(code, body) && body != JNull
    ensures MapParsed(code, body) == FailureReply(code, body)
  {
    SuccessCheckExact(code, body);
  }

  /** The error a failure reply shows for the members of an upstream object. */
  function FailureError(members: map<string, Json>): Json {
    var m := Lookup(members, "message");
    if m.Some? && Truthy(Val(m.value)) then m.value else JStr(DefaultError)
  }

  /** The failure reply of an upstream object is the pair of its error and the
      object itself. */
  lemma FailureReplyOfObject(code: int, members: map<string, Json>)
    ensures FailureReply(code, JObj(members))
         == Normal(Reply(code, JObj(map["error" := FailureError(members), "details" := JObj(members)])))
  {
    var message := Get(Val(JObj(members)), Message).value;
    assert MessageOrDefault(message) == Val(FailureError(members));
    StringifiedPair("error", MessageOrDefault(message), "details", Val(JObj(members)));
  }

  /** The failure reply carries the upstream status code, whatever it is, the
      message as error when it is truthy and the fixed text otherwise, and
      the whole body as details. */
  lemma FailureReplyContent(code: int, members: map<string, Json>)
    ensures var r := FailureReply(code, JObj(members));
      var message := Lookup(members, "message");
      && r.Normal? && r.value.status == code
      && Lookup(r.value.body.members, "details") == Some(JObj(members))
      && Lookup(r.value.body.members, "error")
         == Some(if message.Some? && Truthy(Val(message.value)) then message.value else JStr(DefaultError))
  {
    FailureReplyOfObject(code, members);
  }

  /** The failure reply of any other parsed value (an array, a string, a
      number, a boolean) has no message to show: its error is the fixed text
      and its details the value itself. */
  lemma FailureReplyOfNonObject(code: int, body: Json)
    requires body != JNull && !body.JObj?
    ensures FailureReply(code, body)
         == Normal(Reply(code, JObj(map["error" := JStr(DefaultError), "details" := body])))
  {
    StringifiedPair("error", Val(JStr(DefaultError)), "details", Val(body));
  }

  /** Such a value is never a success, so it is replayed with the upstream
      status code and the fixed error. */
  lemma NonObjectReplayed(code: int, body: Json)
    requires body != JNull && !body.JObj?
    ensures OnResponse(Received(code, Parsed(body)))
         == Replied(Reply(code, JObj(map["error" := JStr(DefaultError), "details" := body])))
  {
    OnParsed(code, body);
    MapParsedFailure(code, body);
    FailureReplyOfNonObject(code, body);
  }

  /** A parsed upstream object that is not a success is replayed with the
      upstream status code (200 and 201 included) and the failure reply's content. */
  lemma NonSuccessReplayed(code: int, members: map<string, Json>)
    requires !IsSuccess(code, JObj(members))
    ensures var r := OnResponse(Received(code, Parsed(JObj(members))));
      r == Replied(FailureReply(code, JObj(members)).value) && r.reply.status == code
  {
    OnParsed(code, JObj(members));
    MapParsedFailure(code, JObj(members));
    FailureReplyContent(code, members);
  }

  /** An empty message falls back to the fixed text, like an absent one. */
  lemma EmptyMessageFallsBack(code: int, rest: map<string, Json>)
    requires !IsSuccess(code, JObj(rest["message" := JStr("")]))
    ensures var r := OnResponse(Received(code, Parsed(JObj(rest["message" := JStr("")]))));
      r.Replied? && Lookup(r.reply.body.members, "error") == Some(JStr(DefaultError))
  {
    var members := rest["message" := JStr("")];
    NonSuccessReplayed(code, members);
    FailureReplyContent(code, members);
  }

  /** A null body crashes the callback whatever the status: reading `status`
      of null for a 201, reading `message` of null otherwise. */
  lemma NullBodyCrashes(code: int)
    ensures OnResponse(Received(code, Parsed(JNull)))
         == Crashed(ReadError("null", if code == 201 then "status" else "message"))
  {
  }

  /** The reply to an upstream success is the success reply. */
  lemma MapParsedSuccess(code: int, body: Json)
    requires IsSuccess(code, body)
    ensures MapParsed(code, body) == SuccessReply(body)
  {
    hide IsoDate.ToIsoString;
    SuccessCheckExact(code, body);
  }

  /** An upstream success is answered with the success reply, or crashes
      with the exception that building it throws. */
  lemma OnSuccess(code: int, body: Json)
    requires IsSuccess(code, body)
    ensures OnResponse(Received(code, Parsed(body))) == Settle(SuccessReply(body))
  {
    hide IsoDate.ToIsoString;
    OnParsed(code, body);
    MapParsedSuccess(code, body);
  }

  /** The conversion throws the TypeError exactly when ToNumber does, and the
      RangeError exactly for a value ToNumber makes NaN and for a number of
      seconds whose time value lies beyond TimeClip's bound. */
  lemma ExpiresAtIsoThrows(v: Value)
    ensures ExpiresAtIso(v) == Throw(NoPrimitive) <==> ToNumber(v).Throw?
    ensures ExpiresAtIso(v) == Throw(InvalidTime)
        <==> ToNumber(v).Normal? &&
             (ToNumber(v).value.NaN? || ToNumber(v).value.n * 1000 < -IsoDate.MaxTimeValue
              || ToNumber(v).value.n * 1000 > IsoDate.MaxTimeValue)
  {
  }

  /** `expires_at` seconds whose time value has a four-digit year. */
  predicate InDateRange(x: int) {
    IsoDate.FirstFourDigitTime <= x * 1000 <= IsoDate.LastFourDigitTime
  }

  /** The date string of `expires_at` seconds in the four-digit-year range. */
  function ExpiryString(x: int): string
    requires InDateRange(x)
  {
    IsoDate.ToIsoString(x * 1000).value
  }

  /** A number of seconds in the date range converts to its date string. */
  lemma ExpiresAtIsoOfNumber(x: int)
    requires InDateRange(x)
    ensures ExpiresAtIso(Val(JNum(x))) == Normal(Val(JStr(ExpiryString(x))))
  {
  }

  /** The date string of `expires_at` is 24 characters long and reads back as
      its time value, so no precision is lost. */
  lemma ExpiryStringRoundTrip(x: int)
    requires InDateRange(x)
    ensures |ExpiryString(x)| == 24 && IsoDate.ParseIso(ExpiryString(x)) == Some(x * 1000)
  {
    IsoDate.ParseFormat(x * 1000);
    IsoDate.WidthsSum();
  }

  /** Later expiry times give later date strings, in string order. */
  lemma ExpiryStringMonotone(x: int, y: int)
    requires InDateRange(x) && InDateRange(y)
    ensures x < y <==> IsoDate.LexLess(ExpiryString(x), ExpiryString(y))
  {
    IsoDate.IsoMonotone(x * 1000, y * 1000);
  }

  /** `expires_at` given as the decimal text of an integer, or as a
      one-element array holding it, converts as the number does. */
  lemma ExpiresAtIsoOfText(n: int)
    ensures ExpiresAtIso(Val(JStr(IntegerString(n)))) == ExpiresAtIso(Val(JNum(n)))
    ensures ExpiresAtIso(Val(JArr([JNum(n)]))) == ExpiresAtIso(Val(JNum(n)))
  {
    ToNumberOfInteger(n);
  }

  /** `expires_at` 1710000000 is the ninth of March 2024 at 16:00 UTC. */
  lemma ExpiresAtExample()
    ensures InDateRange(1710000000) && ExpiryString(1710000000) == "2024-03-09T16:00:00.000Z"
  {
    IsoDate.ToIsoStringExample();
  }

  /** The `data` member of the success reply: the six fields of the upstream
      `data`, renamed from snake case to camel case, with `expires_at` converted. */
  function RenamedData(data: map<string, Json>, expiresAt: Value): seq<(string, Value)> {
    [("oneTimePasscode", Present(Lookup(data, "one_time_passcode"))),
     ("expiresAt", expiresAt),
     ("email", Present(Lookup(data, "email"))),
     ("workvivoUserId", Present(Lookup(data, "workvivo_user_id"))),
     ("organisationId", Present(Lookup(data, "organisation_id"))),
     ("loginUrl", Present(Lookup(data, "login_url")))]
  }

  /** The four contact fields of an object, each missing one undefined. */
  lemma ContactFieldsOfObject(data: map<string, Json>)
    ensures ContactFields(Val(JObj(data))) == Normal(RenamedData(data, Undefined)[2..])
  {
  }

  /** The reply's data from the values its reads produce. */
  lemma DataReplyOf(d: Value, oneTimePasscode: Value, expiry: Value, expiresAt: Value, contact: seq<(string, Value)>)
    requires Get(d, OneTimePasscode) == Normal(oneTimePasscode) && Get(d, ExpiresAt) == Normal(expiry)
    requires ExpiresAtIso(expiry) == Normal(expiresAt) && ContactFields(d) == Normal(contact)
    ensures DataReply(d) == Normal(Stringified([("oneTimePasscode", oneTimePasscode), ("expiresAt", expiresAt)] + contact))
  {
    hide IsoDate.ToIsoString;
  }

  /** Without a `data` object the first field read fails. */
  lemma DataReplyOfNothing(d: Value)
    requires d == Undefined || d == Val(JNull)
    ensures DataReply(d) == Throw(ReadError(if d == Undefined then "undefined" else "null", "one_time_passcode"))
  {
    hide IsoDate.ToIsoString;
  }

  /** Once the passcode is read, an `expires_at` that does not convert stops
      the data with the conversion's exception. */
  lemma DataReplyStopsAtExpiry(d: Value, expiry: Value)
    requires Get(d, OneTimePasscode).Normal? && Get(d, ExpiresAt) == Normal(expiry) && ExpiresAtIso(expiry).Throw?
    ensures DataReply(d) == Throw(ExpiresAtIso(expiry).exception)
  {
    hide IsoDate.ToIsoString;
  }

  /** A `data` object whose `expires_at` ToNumber makes NaN (missing, not
      numeric text, an object without its own `toString`) fails with the
      RangeError. */
  lemma DataReplyNaNExpiry(data: map<string, Json>)
    requires ToNumber(Present(Lookup(data, "expires_at"))) == Normal(NaN)
    ensures DataReply(Val(JObj(data))) == Throw(InvalidTime)
  {
    hide IsoDate.ToIsoString;
    GetMember(data, OneTimePasscode);
    GetMember(data, ExpiresAt);
    DataReplyStopsAtExpiry(Val(JObj(data)), Present(Lookup(data, "expires_at")));
  }

  /** A `data` object whose `expires_at` has no primitive fails with the
      TypeError of the multiplication. */
  lemma DataReplyUnconvertibleExpiry(data: map<string, Json>, expiry: Json)
    requires Lookup(data, "expires_at") == Some(expiry) && Unconvertible(expiry)
    ensures DataReply(Val(JObj(data))) == Throw(NoPrimitive)
  {
    hide IsoDate.ToIsoString;
    GetMember(data, OneTimePasscode);
    GetPresent(data, ExpiresAt, expiry);
    DataReplyStopsAtExpiry(Val(JObj(data)), Val(expiry));
  }

  /** A `data` object whose `expires_at` is a number of seconds beyond
      TimeClip's bound fails with the RangeError. */
  lemma DataReplyOutOfRangeExpiry(data: map<string, Json>, x: int)
    requires Lookup(data, "expires_at") == Some(JNum(x))
    requires x * 1000 < -IsoDate.MaxTimeValue || x * 1000 > IsoDate.MaxTimeValue
    ensures DataReply(Val(JObj(data))) == Throw(InvalidTime)
  {
    GetMember(data, OneTimePasscode);
    GetMember(data, ExpiresAt);
    DataReplyStopsAtExpiry(Val(JObj(data)), Val(JNum(x)));
  }

  /** The six fields split into the two the data reads first and the four
      contact fields. */
  lemma RenamedDataSplit(data: map<string, Json>, expiresAt: Value)
    ensures RenamedData(data, expiresAt)
         == [("oneTimePasscode", Present(Lookup(data, "one_time_passcode"))), ("expiresAt", expiresAt)]
            + RenamedData(data, Undefined)[2..]
  {
  }

  /** A `data` object whose `expires_at` converts (a number, numeric text,
      null, a boolean, a one-element array, ...) gives the renamed data, with
      the converted value. */
  lemma DataReplyOfFields(data: map<string, Json>, expiry: Json, expiresAt: Value)
    requires Lookup(data, "expires_at") == Some(expiry) && ExpiresAtIso(Val(expiry)) == Normal(expiresAt)
    ensures DataReply(Val(JObj(data))) == Normal(Stringified(RenamedData(data, expiresAt)))
  {
    hide IsoDate.ToIsoString;
    GetMember(data, OneTimePasscode);
    GetPresent(data, ExpiresAt, expiry);
    ContactFieldsOfObject(data);
    RenamedDataSplit(data, expiresAt);
    DataReplyOf(Val(JObj(data)), Present(Lookup(data, "one_time_passcode")), Val(expiry), expiresAt,
      RenamedData(data, Undefined)[2..]);
  }

  /** A `data` object whose `expires_at` is a number of seconds in the date
      range gives the renamed data, with its date string. */
  lemma DataReplyOfObject(data: map<string, Json>, x: int)
    requires Lookup(data, "expires_at") == Some(JNum(x)) && InDateRange(x)
    ensures DataReply(Val(JObj(data))) == Normal(Stringified(RenamedData(data, Val(JStr(ExpiryString(x))))))
  {
    hide IsoDate.ToIsoString;
    ExpiresAtIsoOfNumber(x);
    DataReplyOfFields(data, JNum(x), Val(JStr(ExpiryString(x))));
  }

  /** The success reply from the values its reads produce. */
  lemma SuccessReplyOf(body: Json, status: Value, data: Value, renamed: Json, message: Value)
    requires Get(Val(body), Status) == Normal(status) && Get(Val(body), Data) == Normal(data)
    requires DataReply(data) == Normal(renamed) && Get(Val(body), Message) == Normal(message)
    ensures SuccessReply(body) == Normal(Reply(200, Stringified([("status", status), ("data", Val(renamed)), ("message", message)])))
  {
    hide IsoDate.ToIsoString;
  }

  /** The success reply of an object fails exactly as its data does. */
  lemma SuccessReplyThrows(body: Json, data: Value)
    requires body.JObj? && Get(Val(body), Data) == Normal(data) && DataReply(data).Throw?
    ensures SuccessReply(body) == Throw(DataReply(data).exception)
  {
    hide IsoDate.ToIsoString;
  }

  /** When `data` is an object whose `expires_at` converts, the success reply
      is status 200 with the upstream `status`, the renamed data and the
      upstream `message`. */
  lemma SuccessReplyOfObject(members: map<string, Json>, data: map<string, Json>, expiry: Json, expiresAt: Value)
    requires Lookup(members, "data") == Some(JObj(data))
    requires Lookup(data, "expires_at") == Some(expiry) && ExpiresAtIso(Val(expiry)) == Normal(expiresAt)
    ensures SuccessReply(JObj(members)) == Normal(Reply(200, Stringified([
        ("status", Present(Lookup(members, "status"))),
        ("data", Val(Stringified(RenamedData(data, expiresAt)))),
        ("message", Present(Lookup(members, "message")))])))
  {
    hide IsoDate.ToIsoString;
    GetPresent(members, Data, JObj(data));
    GetMember(members, Status);
    GetMember(members, Message);
    DataReplyOfFields(data, expiry, expiresAt);
    SuccessReplyOf(JObj(members), Present(Lookup(members, "status")), Val(JObj(data)),
      Stringified(RenamedData(data, expiresAt)), Present(Lookup(members, "message")));
  }

  /** Each camel-case field of the reply's data holds the snake-case field of
      the upstream data, and is left out exactly when that one is missing. */
  lemma RenamedDataLookups(data: map<string, Json>, expiresAt: Value)
    requires expiresAt.Val?
    ensures var d := Stringified(RenamedData(data, expiresAt)).members;
      && Lookup(d, "oneTimePasscode") == Lookup(data, "one_time_passcode")
      && Lookup(d, "expiresAt") == Some(expiresAt.json)
      && Lookup(d, "email") == Lookup(data, "email")
      && Lookup(d, "workvivoUserId") == Lookup(data, "workvivo_user_id")
      && Lookup(d, "organisationId") == Lookup(data, "organisation_id")
      && Lookup(d, "loginUrl") == Lookup(data, "login_url")
  {
    var fields := RenamedData(data, expiresAt);
    assert DistinctKeys(fields);
    FieldValueDistinct(fields, 0);
    FieldValueDistinct(fields, 1);
    FieldValueDistinct(fields, 2);
    FieldValueDistinct(fields, 3);
    FieldValueDistinct(fields, 4);
    FieldValueDistinct(fields, 5);
    StringifiedLookup(fields, "oneTimePasscode");
    StringifiedLookup(fields, "expiresAt");
    StringifiedLookup(fields, "email");
    StringifiedLookup(fields, "workvivoUserId");
    StringifiedLookup(fields, "organisationId");
    StringifiedLookup(fields, "loginUrl");
  }

  /** The members of the success reply: `status` is "success", `message` is the
      upstream message (left out when missing), and `data` is the renamed data. */
  lemma SuccessReplyMembers(members: map<string, Json>, data: map<string, Json>, expiresAt: Value)
    requires Lookup(members, "status") == Some(JStr("success")) && expiresAt.Val?
    ensures var out := Stringified([
        ("status", Present(Lookup(members, "status"))),
        ("data", Val(Stringified(RenamedData(data, expiresAt)))),
        ("message", Present(Lookup(members, "message")))]).members;
      && Lookup(out, "status") == Some(JStr("success"))
      && Lookup(out, "data") == Some(Stringified(RenamedData(data, expiresAt)))
      && Lookup(out, "message") == Lookup(members, "message")
  {
    var fields := [
        ("status", Present(Lookup(members, "status"))),
        ("data", Val(Stringified(RenamedData(data, expiresAt)))),
        ("message", Present(Lookup(members, "message")))];
    assert DistinctKeys(fields);
    FieldValueDistinct(fields, 0);
    FieldValueDistinct(fields, 1);
    FieldValueDistinct(fields, 2);
    StringifiedLookup(fields, "status");
    StringifiedLookup(fields, "data");
    StringifiedLookup(fields, "message");
  }

  /** An upstream success whose `data` is an object with a numeric
      `expires_at` in the date range replies 200 with `status`, `message` and
      the six data fields renamed to camel case, `expiresAt` being the date
      string of those seconds. */
  lemma SuccessReplyContent(members: map<string, Json>, data: map<string, Json>, x: int)
    requires IsSuccess(201, JObj(members)) && Lookup(members, "data") == Some(JObj(data))
    requires Lookup(data, "expires_at") == Some(JNum(x)) && InDateRange(x)
    ensures var r := OnResponse(Received(201, Parsed(JObj(members))));
      var renamed := Stringified(RenamedData(data, Val(JStr(ExpiryString(x)))));
      && r.Replied? && r.reply.status == 200
      && Lookup(r.reply.body.members, "status") == Some(JStr("success"))
      && Lookup(r.reply.body.members, "message") == Lookup(members, "message")
      && Lookup(r.reply.body.members, "data") == Some(renamed)
      && Lookup(renamed.members, "expiresAt") == Some(JStr(ExpiryString(x)))
  {
    hide IsoDate.ToIsoString;
    var expiresAt := Val(JStr(ExpiryString(x)));
    ExpiresAtIsoOfNumber(x);
    OnSuccess(201, JObj(members));
    SuccessReplyOfObject(members, data, JNum(x), expiresAt);
    SuccessReplyMembers(members, data, expiresAt);
    RenamedDataLookups(data, expiresAt);
  }

  /** A success answer replies 200, or crashes while reading its `data`; never
      with another status. */
  lemma SuccessReplyStatus(code: int, body: Json)
    requires IsSuccess(code, body)
    ensures var r := OnResponse(Received(code, Parsed(body)));
      r.Replied? ==> r.reply.status == 200
  {
    hide IsoDate.ToIsoString;
    OnSuccess(code, body);
  }

  /** In a success answer whose `data` is missing or null, the first field
      read fails. */
  lemma MissingDataCrashes(members: map<string, Json>)
    requires IsSuccess(201, JObj(members))
    requires Lookup(members, "data") == None || Lookup(members, "data") == Some(JNull)
    ensures OnResponse(Received(201, Parsed(JObj(members))))
         == Crashed(ReadError(if Lookup(members, "data") == None then "undefined" else "null", "one_time_passcode"))
  {
    hide IsoDate.ToIsoString;
    OnSuccess(201, JObj(members));
    GetMember(members, Data);
    var d := Present(Lookup(members, "data"));
    DataReplyOfNothing(d);
    SuccessReplyThrows(JObj(members), d);
  }

  /** In a success answer whose `data.expires_at` ToNumber makes NaN the
      callback throws the RangeError. */
  lemma NaNExpiryCrashes(members: map<string, Json>, data: map<string, Json>)
    requires IsSuccess(201, JObj(members)) && Lookup(members, "data") == Some(JObj(data))
    requires ToNumber(Present(Lookup(data, "expires_at"))) == Normal(NaN)
    ensures OnResponse(Received(201, Parsed(JObj(members)))) == Crashed(InvalidTime)
  {
    hide IsoDate.ToIsoString;
    OnSuccess(201, JObj(members));
    GetPresent(members, Data, JObj(data));
    DataReplyNaNExpiry(data);
    SuccessReplyThrows(JObj(members), Val(JObj(data)));
  }

  /** In a success answer whose `data.expires_at` has no primitive, such as an
      object with its own `toString` member, the callback throws the TypeError. */
  lemma UnconvertibleExpiryCrashes(members: map<string, Json>, data: map<string, Json>, expiry: Json)
    requires IsSuccess(201, JObj(members)) && Lookup(members, "data") == Some(JObj(data))
    requires Lookup(data, "expires_at") == Some(expiry) && Unconvertible(expiry)
    ensures OnResponse(Received(201, Parsed(JObj(members)))) == Crashed(NoPrimitive)
  {
    hide IsoDate.ToIsoString;
    OnSuccess(201, JObj(members));
    GetPresent(members, Data, JObj(data));
    DataReplyUnconvertibleExpiry(data, expiry);
    SuccessReplyThrows(JObj(members), Val(JObj(data)));
  }

  /** So does a numeric `expires_at` whose time value is beyond TimeClip's bound. */
  lemma OutOfRangeExpiryCrashes(members: map<string, Json>, data: map<string, Json>, x: int)
    requires IsSuccess(201, JObj(members)) && Lookup(members, "data") == Some(JObj(data))
    requires Lookup(data, "expires_at") == Some(JNum(x))
    requires x * 1000 < -IsoDate.MaxTimeValue || x * 1000 > IsoDate.MaxTimeValue
    ensures OnResponse(Received(201, Parsed(JObj(members)))) == Crashed(InvalidTime)
  {
    hide IsoDate.ToIsoString;
    OnSuccess(201, JObj(members));
    GetPresent(members, Data, JObj(data));
    DataReplyOutOfRangeExpiry(data, x);
    SuccessReplyThrows(JObj(members), Val(JObj(data)));
  }

  /** In particular a `data` without `expires_at` crashes the callback. */
  lemma MissingExpiryCrashes(members: map<string, Json>, data: map<string, Json>)
    requires IsSuccess(201, JObj(members)) && Lookup(members, "data") == Some(JObj(data))
    requires Lookup(data, "expires_at") == None
    ensures OnResponse(Received(201, Parsed(JObj(members)))) == Crashed(InvalidTime)
  {
    hide IsoDate.ToIsoString;
    NaNExpiryCrashes(members, data);
  }
}
