# Workvivo one-time-passcode handler, modelled in Dafny

This project models the `POST /generate-otp` handler of the Workvivo
one-time-passcode demo server (`server.js`). The handler:

- reads the posted `email` and rejects a falsy one with 400;
- reads the RS256 private key and the key discovery document (a JWK Set);
- takes the `kid` of the document's first key;
- builds the claims set of a short-lived assertion and has it signed with
  that `kid` in the protected header;
- sends the token, the key id and the email to the Workvivo OTP endpoint;
- maps the upstream answer to the browser's reply. A success is renamed to
  camel case, and its `expires_at` epoch seconds become an ISO-8601 string
  through `new Date(s * 1000).toISOString()`.

Every exception thrown before the request is sent becomes a 500 carrying the
exception's message.

Modules, one per file:

- `Options` (options.dfy): the optional value.
- `Js` (js.dfy): the slice of JavaScript the handler relies on:
  - JSON values, with an object held as a map from names to values;
  - `undefined`, and exceptions with V8's messages;
  - property reads on the names the handler uses;
  - ToBoolean, ToNumber and the member dropping of `JSON.stringify`.
- `Hex` (hex.dfy): lowercase hex encoding, as `Buffer.toString('hex')` writes it.
- `Calendar` (calendar.dfy): proleptic Gregorian day numbers.
  - `DaysFromCivil` is the reference definition (DayFromYear of ECMA-262
    plus the days before the month).
  - `CivilFromDays` is the closed-form era algorithm that inverts it.
- `IsoDate` (iso_date.dfy): time values and `toISOString` (section 21.4.4.36
  of ECMA-262, the format of section 5.6 of RFC 3339 with milliseconds).
  It also holds a parser for the 24-character form, used to state the round trip.
- `Jwks` (jwks.dfy): `jwks.keys[0].kid` and the document shape that
  tools/generate-jwks.js writes (a JWK Set, section 5 of RFC 7517).
- `Assertion` (assertion.dfy):
  - the claims set (registered claims of section 4.1 of RFC 7519, with
    NumericDate seconds);
  - the signer's options (`kid` header of section 4.1.4 of RFC 7515);
  - the upstream request.
- `Upstream` (upstream.dfy): the HTTP client's callback, as written.
- `Handler` (handler.dfy): the whole request.
  - Clock, file reads, random bytes, `jwt.sign`, `jwt.verify` and the HTTP
    client are parameters.

The callback is modelled as written. Its first statement,
`console.dir(JSON.parse(response.body))`, runs before the error check.
Consequences:

- a transport error (no `response`) throws a TypeError inside the callback;
- a body that is not JSON throws a SyntaxError there;
- a `null` body throws on reading `status` or `message`;
- an `expires_at` that ToNumber makes NaN (missing, non-numeric text, an
  object without its own `toString`) makes `toISOString` throw a RangeError;
- an `expires_at` object with its own `toString` member makes the
  multiplication throw a TypeError, as no JSON value is callable.

The callback runs after the handler's `try` has finished, so none of these
becomes a reply: the outcome is `Crashed`. `OnResponseIntended` is the
callback its own error branches describe, with 500 replies for the first two
cases. `OnResponseDivergence` proves that the two agree exactly on answers
with a parseable body.

Further consequences of the code:

- epoch 1710000000 is `2024-03-09T16:00:00.000Z` (`IsoDate.ToIsoStringExample`);
- the email test is JavaScript truthiness, so `0` and `false` are rejected
  and any truthy non-string is accepted.

## Model

| member | source | states |
|---|---|---|
| Hex.RandomHexString | server.js:52-54 | the `state` string is 64 lowercase hex characters and decodes back to exactly the 32 random bytes |
| Hex.DecodeEncode | server.js:53 | hex decoding inverts the encoding of any byte string |
| Hex.EncodeDecode | server.js:53 | every decodable string is the encoding of what it decodes to, so the hex form is canonical |
| Hex.DecodeDefined | server.js:53 | a string decodes exactly when it has even length and only lowercase hex digits |
| Hex.EncodeInjective | server.js:53 | different random bytes never give the same hex string |
| Js.Get | server.js:70 | a property read throws exactly on undefined or null, and then a TypeError |
| Js.Index0 | server.js:82 | `x[0]` throws exactly on undefined or null |
| Js.FalsyValues | server.js:72 | a value is falsy exactly when it is undefined, null, false, 0 or "" |
| Js.ObjectOfSpec | server.js:81 | `JSON.parse` keeps a name present in the text, with the value of its last occurrence |
| Js.ObjectOfDistinct | server.js:81 | with distinct names, every member of the text is found under its name |
| Js.ToNumberThrows | server.js:159 | ToNumber throws V8's TypeError exactly for an object with its own `toString` and for an array holding one at any depth; other objects are NaN |
| Js.ToNumberOfInteger | server.js:159 | ToNumber gives n for the number n, for its decimal text and for the one-element array holding it |
| Js.StringifiedLookup | server.js:114-116 | `JSON.stringify` keeps a field exactly when its value is a JSON value (not undefined, not a function), with that value |
| Js.FieldValueDistinct | server.js:107-113 | with distinct header names, each header reads back its own value |
| Js.StringifiedPair | server.js:168-171 | an object literal of two defined fields serialises to exactly those two members |
| IsoDate.ToIsoString | server.js:159 | `toISOString` throws exactly when the time value is beyond TimeClip's bound; what its string means is stated by ParseFormat, FormatParse and IsoMonotone |
| Calendar.CivilFromDaysInverse | server.js:159 | the era algorithm gives a valid date whose day number is the input |
| Calendar.DaysFromCivilInverse | server.js:159 | the era algorithm recovers every valid date from its day number |
| Calendar.CivilFromDaysMonotone | server.js:159 | a later day gives a later date, and only a later day does |
| Calendar.DaysFromCivilMonotone | server.js:159 | calendar order of valid dates is the order of their day numbers |
| Calendar.FourDigitYears | server.js:159 | the day numbers of years 0000 to 9999 give four-digit years |
| IsoDate.DecomposeInverse | server.js:159 | the calendar fields of a time value compose back to it |
| IsoDate.ComposeInverse | server.js:159 | valid calendar fields are recovered from their time value |
| IsoDate.FourDigitRange | server.js:159 | time values between 0000-01-01 and 9999-12-31 have four-digit years and are within TimeClip's bound |
| IsoDate.ParseFormat | server.js:159 | for four-digit years `toISOString` succeeds and its string parses back to the time value |
| IsoDate.FormatParse | server.js:159 | every well-formed 24-character string is the `toISOString` of the value it parses to |
| IsoDate.IsoMonotone | server.js:159 | for four-digit years, comparing strings compares time values, in both directions |
| IsoDate.ToIsoStringExample | server.js:159 | time value 1710000000000 formats as 2024-03-09T16:00:00.000Z |
| Jwks.KidOf | server.js:82 | reading `jwks.keys[0].kid` can only fail with a TypeError |
| Jwks.KidOfFirstEntry | server.js:82 | with a non-empty `keys` array of objects the kid is the first entry's `kid`, or undefined |
| Jwks.KidOfFailures | server.js:82 | a null document, a missing `keys`, an empty or null `keys` fail with V8's message for the step that reads undefined or null |
| Jwks.ProvisionedKid | tools/generate-jwks.js:30-34 | for the generated document, as `JSON.parse` reads it back, the kid is the 32-character hex of 16 random bytes, and the key declares RS256 and signature use |
| Assertion.CurrentTime | server.js:78 | `Math.floor(Date.now() / 1000)` is the whole second containing the clock reading |
| Assertion.BuildClaims | server.js:85-95 | the payload meets ClaimsFor: iss, sub, workvivo_id and aud come from the config and "app"; iat = nbf = floor(now / 1000); exp = iat + 600; state is the 64-hex form of the random bytes |
| Assertion.ClaimsForUnique | server.js:85-95 | those requirements determine the claims set completely |
| Assertion.StateDistinguishes | server.js:94 | different random bytes give different `state` claims |
| Assertion.ClaimsObjectNames | server.js:85-95 | the payload has exactly the eight claim names and no `jti` |
| Assertion.ClaimsObjectRoundTrip | server.js:85-95 | the payload reads back, claim by claim, as the claims it was built from |
| Assertion.ParseHasClaims | server.js:85-95 | an object reads as a claims set exactly when it carries each claim under its registered name |
| Assertion.UpstreamRequest | server.js:104-117 | a POST to the OTP URL with four headers of distinct names, so no header shadows another |
| Assertion.UpstreamRequestBinding | server.js:104-117 | a POST to the OTP URL whose JWT header is the token, whose key-id header is the kid and whose body is `{"email": email}` |
| Upstream.ExpiresAtIso | server.js:159 | the conversion fails only with RangeError "Invalid time value" or with the TypeError of a value without a primitive, the latter exactly for such a value, and otherwise gives a string |
| Upstream.ExpiresAtIsoThrows | server.js:159 | the conversion throws the TypeError exactly when ToNumber throws, and the RangeError exactly when ToNumber gives NaN or the milliseconds exceed TimeClip's bound |
| Upstream.MessageOrDefault | server.js:169 | `message \|\| 'Failed to generate OTP'` is always truthy: exactly the message when it is truthy, else the fixed text |
| Upstream.MapParsed | server.js:154-172 | a parsed answer that is replied to gets 200 or the upstream status code, and another status than the upstream one only for an upstream success |
| Upstream.OnResponse | server.js:138-172 | the callback as written replies only to a received, parseable answer, and only with 200 or the upstream status code |
| Upstream.OnResponseIntended | server.js:141-151 | the callback its error branches describe answers every transport error and unparseable body with 500 |
| Upstream.OnResponseDivergence | server.js:138-151 | as written, the callback differs from its intended branches exactly on transport errors and unparseable bodies; it crashes where they reply |
| Upstream.SuccessCheckExact | server.js:154 | the success test throws only for a 201 with a null body, and holds exactly for status 201 with `status === "success"` |
| Upstream.MapParsedFailure | server.js:167-172 | every non-null answer that is not a success gets the failure reply |
| Upstream.FailureReplyOfObject | server.js:168-171 | the failure reply of an object is exactly `{error, details}`, with the whole body as details |
| Upstream.FailureReplyOfNonObject | server.js:168-171 | the failure reply of a parsed array, string, number or boolean is `{error: 'Failed to generate OTP', details: <the value>}` |
| Upstream.NonObjectReplayed | server.js:154-172 | such a value is never a success and is replayed with the upstream status code, the fixed error and itself as details |
| Upstream.FailureReplyContent | server.js:167-172 | the failure reply keeps the upstream status code; its error is the message when truthy, else the fixed text |
| Upstream.NonSuccessReplayed | server.js:167-172 | a parsed non-success object is replayed with the upstream status code, 200 and 201 included |
| Upstream.EmptyMessageFallsBack | server.js:167-169 | in any answer that is not a success, an empty message falls back to 'Failed to generate OTP' |
| Upstream.NullBodyCrashes | server.js:154-172 | a null body crashes, reading `status` for a 201 and `message` otherwise |
| Upstream.MapParsedSuccess | server.js:154-166 | an upstream success gets the success reply |
| Upstream.OnSuccess | server.js:154-166 | for an upstream success, the callback's outcome is the success reply or its exception |
| Upstream.ExpiresAtIsoOfNumber | server.js:159 | an integer number of seconds in the four-digit-year range converts to its date string |
| Upstream.ExpiryStringRoundTrip | server.js:159 | that date string has 24 characters and parses back to the seconds times 1000 |
| Upstream.ExpiryStringMonotone | server.js:159 | later expiry seconds give later date strings, and only they do |
| Upstream.ExpiresAtIsoOfText | server.js:159 | `expires_at` given as decimal text or a one-element array converts like the number |
| Upstream.ExpiresAtExample | server.js:159 | `expires_at` 1710000000 gives 2024-03-09T16:00:00.000Z |
| Upstream.ContactFieldsOfObject | server.js:160-163 | the four contact fields of an object are its members renamed, undefined when missing |
| Upstream.DataReplyOfNothing | server.js:158 | with `data` undefined or null, the passcode read throws V8's TypeError |
| Upstream.DataReplyStopsAtExpiry | server.js:158-159 | once the passcode is read, an unconvertible `expires_at` makes the data throw the conversion's exception |
| Upstream.DataReplyNaNExpiry | server.js:159 | a `data` object whose `expires_at` ToNumber makes NaN throws the RangeError |
| Upstream.DataReplyUnconvertibleExpiry | server.js:159 | a `data` object whose `expires_at` has no primitive throws the TypeError |
| Upstream.DataReplyOutOfRangeExpiry | server.js:159 | a numeric `expires_at` beyond TimeClip's bound throws the RangeError |
| Upstream.DataReplyOfFields | server.js:157-164 | a `data` object whose `expires_at` converts, whatever its JSON type, gives the six renamed fields with the converted value |
| Upstream.DataReplyOfObject | server.js:157-164 | for `expires_at` seconds in the date range, the data is the renamed fields with the date string |
| Upstream.SuccessReplyThrows | server.js:155-166 | the success reply fails exactly as its data does |
| Upstream.SuccessReplyOfObject | server.js:155-166 | with a `data` object whose `expires_at` converts, whatever its JSON type, the success reply is 200 with the upstream status, the renamed data and the upstream message |
| Upstream.RenamedDataLookups | server.js:157-164 | each camel-case field holds its snake-case source, and is dropped exactly when the source is missing |
| Upstream.SuccessReplyMembers | server.js:155-166 | the reply's `status` is "success", its `message` is the upstream one and its `data` the renamed data |
| Upstream.SuccessReplyContent | server.js:154-166 | a 201 success with `expires_at` in range replies 200 with status, message and the renamed data, `expiresAt` being the date string |
| Upstream.SuccessReplyStatus | server.js:154-166 | an upstream success never replies with a status other than 200 |
| Upstream.MissingDataCrashes | server.js:158 | a success without `data`, or with null `data`, crashes with the TypeError of the passcode read |
| Upstream.NaNExpiryCrashes | server.js:159 | a success whose `expires_at` ToNumber makes NaN crashes with the RangeError |
| Upstream.UnconvertibleExpiryCrashes | server.js:159 | a success whose `expires_at` is an object with its own `toString`, or an array holding one, crashes with the TypeError |
| Upstream.OutOfRangeExpiryCrashes | server.js:159 | so does a success whose `expires_at` is beyond TimeClip's bound |
| Upstream.MissingExpiryCrashes | server.js:159 | so does a success whose `data` has no `expires_at` |
| Handler.Prepare | server.js:69-136 | the synchronous part rejects only with `{error}` and 400 or 500, with 400 exactly for a falsy email, and otherwise calls with a POST to the OTP URL |
| Handler.Handle | server.js:69-176 | a request can crash only after the upstream call: every exception before it is caught |
| Handler.FalsyEmailRejected | server.js:70-74 | a falsy email gets 400 `{error: 'Email is required'}` whatever the files, clock, signer and client do |
| Handler.MissingEmailRejected | server.js:70-74 | a posted object without `email` is rejected the same way |
| Handler.NoBodyFails | server.js:70 | an undefined or null posted body fails on reading `email`, and the TypeError becomes a 500 |
| Handler.CallExactly | server.js:69-138 | the request goes upstream exactly when the email is truthy and the key read, document, kid, signature and public-key read all succeed |
| Handler.FirstFailureReplied | server.js:77-128 | the first of those steps to throw gives a 500 with that exception's message, and no upstream call |
| Handler.EmptyKeysFails | server.js:81-82 | an empty `keys` array gives a 500 with the message of reading `kid` of undefined |
| Handler.VerifierIgnored | server.js:128-135 | the self-check's result, exception included, changes nothing |
| Handler.CallContent | server.js:78-117 | the token header is the signer's token for the claims of this time, config and random bytes, signed RS256 with the kid that is also the key-id header; the body is the email |
| Handler.ProvisionedKeyId | server.js:81-82 | with the generated document, the key-id header is the hex of its 16 random kid bytes |
| Handler.SentFailureCrashes | server.js:138-151 | a transport error or an unparseable upstream body crashes the request instead of replying |
| Handler.SentSuccessReplied | server.js:154-166 | end to end, an upstream success with `expires_at` in range replies 200 with the renamed data and the date string |
| Handler.SentFailureReplayed | server.js:167-172 | end to end, any other parsed object is replayed with the upstream status code and the body as details |

## Left out

- Express plumbing (app set-up, static files, the `/` route, error middleware,
  `listen`): framework I/O, not handler logic. `Content-Type` of the reply is
  not modelled.
- Environment loading: `Config` holds the four values as strings. An unset
  variable, which makes `undefined` in JavaScript, is not modelled.
- File reads and `JSON.parse` of the key discovery document are fields of
  `World`: a value, or the exception the read throws. The text of the files
  is not parsed.
- The clock and `crypto.randomBytes(32)` are plain values of `World`. A
  failing `crypto.randomBytes` is not modelled.
- `jwt.sign` and `jwt.verify` are function parameters: foreign cryptography.
  No property of signatures is assumed. `verify` is called, and its result
  and exceptions are ignored.
- The HTTP client is a function from the request to the arguments of the
  callback. Scheduling, timeouts and retries are not modelled.
- The object's `headers` member order, and member order in JSON objects
  generally: objects are maps, so `details` and the replies are compared as
  sets of members.
- `generateUUID` and the commented-out `jti`: unused by the handler.
- All console logging, apart from the `JSON.parse` at server.js:140, whose
  exception is modelled.
- Js.ToNumber: numbers are integers. Fractional, exponent, hexadecimal,
  `Infinity` and whitespace-padded numeric strings are NaN here.
  IEEE-754 rounding of `expires_at * 1000` is not modelled. ToPrimitive is
  modelled for parsed JSON only: its objects inherit `valueOf` and
  `toString` from Object.prototype, and their own members are never callable.
- Js.StringToNumber: covers the empty string, an optional sign and decimal
  digits only. Other strings give NaN.
- Upstream.SuccessReplyContent: stated for an integer `expires_at` whose year
  has four digits. Other convertible values are covered only by
  `Upstream.SuccessReplyOfObject`, with the converted value left abstract.
- Upstream.OnResponse: an upstream status that is not a valid HTTP code
  makes the reply throw. The model replies with it unchanged.
- tools/generate-jwks.js beyond the shape of the entry it writes: key
  generation, file writes and error logging.
