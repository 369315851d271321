# StandBy audio endpoint: request authentication and transcription shaping

This project models the core of the StandBy self-hosted transcription server.

The core is the request-authentication verdict `verifySignature`. It takes a timestamp, a `v1=` signature and three identifiers (session, chunk, user). It checks them against a shared secret in five steps:
1. An empty secret switches verification off ("open mode").
2. The timestamp must be parseable and at most five minutes old.
3. The canonical payload is `timestamp.sessionId.chunkId.userId`.
4. The expected signature is `v1=` followed by the lower-case hex HMAC-SHA256 of that payload.
5. The comparison is length-checked and never throws.

Around it sits the `POST` handler of the audio endpoint:
- required-field validation;
- whitelist-or-default model selection;
- signature headers that default to `''`;
- a 401 gate in front of the transcription service;
- request and response shaping for the speaker-separating ("diarize") model.

The model also covers `transcribeAudio` and `isValidModel` of `lib/transcribe.ts`.

Modules, one per concern:
- `Wrappers`: Option and Result.
- `Encoding`: `Buffer.from` as UTF-8 (section 3 of RFC 3629), and Node's `'hex'` digest encoding with its inverse.
- `JsNumber`: `parseInt(s, 10)` as section 19.2.5 of ECMA-262 defines it. It skips leading StrWhiteSpaceChar, reads an optional sign, then the longest decimal-digit prefix. NaN is `None`.
- `NodeCrypto`:
  - `Digest` is 32 bytes.
  - HMAC-SHA256 is a parameter of type `Hmac`.
  - `timingSafeEqual` fails (the thrown RangeError) on byte lengths that differ. Otherwise it reports byte equality.
- `Auth`: `lib/auth.ts`.
- `TranscriptionService`: the records exchanged with the external transcription service. The service itself is a parameter, a function from request to reply.
- `Transcribe`: `lib/transcribe.ts`.
- `AudioRoute`: `app/api/audio/route.ts`. This includes the route's own copy of `verifySignature`, which is proved to give the same verdict as the one in `lib/auth.ts`.

Parameters stand for the environment:
- `secret` is `STANDBY_WEBHOOK_SECRET` (`''` when unset).
- `now` is `Date.now()`.
- `hmac` is HMAC-SHA256.
- `service` is the transcription API.

`Post` and `TranscribeAudio` are methods that build their response step by step, as the source does. Each returns the request it sent to the service; `None` means the service was not called.

A short signature such as `v1=deadbeef` has 11 bytes instead of 67. The code rejects it through the length-mismatch path with `'Invalid signature format'`, not `'Invalid signature'`. The model follows the code (`Auth.WrongLengthSignatureIsFormatError`).

## Model

| member | source | states |
|---|---|---|
| `Encoding.Utf8Encode` | lib/auth.ts:38-40 | `Buffer.from(s)` has at least as many bytes as `s` has characters, and exactly as many iff `s` is ASCII |
| `Encoding.Utf8EncodeAscii` | lib/auth.ts:38-40 | an ASCII string encodes to its own code points, one byte per character |
| `Encoding.Utf8MatchesAscii` | lib/auth.ts:38-41 | comparing the UTF-8 bytes of any string with those of an ASCII string is the same as comparing the strings |
| `Encoding.HexEncode` | lib/auth.ts:32-34 | `digest('hex')` gives two lower-case hex digits per byte |
| `Encoding.HexRoundTrip` | lib/auth.ts:32-34 | hex decoding gives back the digest bytes, so the hex encoding loses nothing |
| `Encoding.HexInjective` | lib/auth.ts:32-34 | two digests have the same hex text iff they are equal |
| `JsNumber.ParseInt` | lib/auth.ts:25 | `parseInt(s, 10)` is NaN iff no decimal digit follows the leading white space and the optional sign; `ParseIntValue` gives its value for every other input |
| `JsNumber.TrimStart` | lib/auth.ts:25 | `parseInt` drops exactly the leading white-space characters, and what is left does not start with one |
| `JsNumber.DigitPrefixLength` | lib/auth.ts:25 | `parseInt` reads the longest prefix of decimal digits |
| `JsNumber.ParseIntSkipsWhiteSpace` | lib/auth.ts:25 | leading white space does not change what `parseInt` returns |
| `JsNumber.ParseIntValue` | lib/auth.ts:25 | white space, an optional `+` or `-`, then digits followed by a non-digit or nothing parse to the signed value of the digits (`" -12x"` gives -12, `"+7"` gives 7) |
| `JsNumber.ParseIntDigitsThen` | lib/auth.ts:25 | digits followed by a non-digit (`"123abc"`) parse to the value of the digits |
| `JsNumber.ParseIntDecimalString` | lib/auth.ts:25 | the plain positional decimal digits of every natural `n` parse back to `n` |
| `NodeCrypto.DifferingPositions` | lib/auth.ts:38-41 | the model counts the differing positions (Node ORs the byte XORs instead); the count is zero iff the buffers are equal |
| `NodeCrypto.TimingSafeEqual` | lib/auth.ts:37-45 | `timingSafeEqual` throws iff the byte lengths differ; otherwise it returns true iff the bytes are equal |
| `Auth.CanonicalPayload` | lib/auth.ts:31 | the payload is the four fields joined by periods in the order timestamp, session, chunk, user; `PayloadDeterminesFields` shows it gives them back when no field has a period |
| `Auth.ExpectedSignature` | lib/auth.ts:32-34 | the expected signature is `v1=` followed by 64 lower-case hex digits (ASCII, 67 characters, 67 bytes), and those digits decode to the HMAC of the UTF-8 payload under the UTF-8 secret |
| `Auth.PassesFreshness` | lib/auth.ts:25-26 | the freshness guard: a parseable timestamp at most 300000 ms old; the third ensures of `VerifySignature` states that with a secret set the timestamp error is given iff this guard fails |
| `Auth.VerifySignature` | lib/auth.ts:11-46 | every verdict has `valid` iff `error` is null; an empty secret accepts every request; with a secret, a timestamp that fails freshness gives 'Request too old or invalid timestamp' |
| `Auth.ValidIffExpectedSignature` | lib/auth.ts:24-42 | with a secret set, the verdict is valid iff the timestamp is fresh and the signature equals the expected one for the raw-timestamp payload |
| `Auth.SignedRequestVerifies` | lib/auth.ts:30-42 | a fresh request signed as the scheme prescribes gets `{valid: true, error: null}` |
| `Auth.MutatedSignatureRejected` | lib/auth.ts:37-42 | changing any single character of the correct signature makes the verdict invalid |
| `Auth.LengthMismatchIsFormatError` | lib/auth.ts:37-45 | a fresh request whose signature is not 67 UTF-8 bytes gets `{valid: false, error: 'Invalid signature format'}` and nothing is thrown |
| `Auth.EqualLengthIsByteComparison` | lib/auth.ts:38-42 | at equal byte length, the verdict is valid iff the bytes are equal, and otherwise the error is 'Invalid signature' |
| `Auth.FreshnessBoundary` | lib/auth.ts:24-28 | an age of exactly 300000 ms passes the freshness check, and 300001 ms is rejected as too old |
| `Auth.FutureTimestampPassesFreshness` | lib/auth.ts:25-26 | a timestamp in the future (negative age) is never rejected as stale |
| `Auth.RawTimestampIsSigned` | lib/auth.ts:25-31 | `"123abc"` passes freshness as 123, but the payload that must be signed starts with the raw `"123abc"` |
| `Auth.WrongLengthSignatureIsFormatError` | lib/auth.ts:37-45 | an ASCII signature whose length is not 67, such as `v1=deadbeef`, is a format error on a fresh request, not a mismatch |
| `Auth.SplitJoin` | lib/auth.ts:31 | joining fields with periods is undone by splitting at periods, as long as no field contains one |
| `Auth.PayloadDeterminesFields` | lib/auth.ts:31 | without periods in the fields, the payload determines timestamp, session, chunk and user |
| `Auth.PeriodsMakePayloadAmbiguous` | lib/auth.ts:31 | with periods inside fields, two different requests share a payload and so get the same verdict for one signature |
| `Transcribe.IsValidModel` | lib/transcribe.ts:25-27 | `isValidModel(m)` holds iff `m` is one of the four listed model names |
| `Transcribe.DefaultModelIsValid` | lib/transcribe.ts:13 | `DEFAULT_MODEL` is a supported model and not the diarize model |
| `Transcribe.BuildCreateParams` | lib/transcribe.ts:34-46 | the request carries file, model and language, plus `response_format: 'diarized_json'` and `chunking_strategy: 'auto'` exactly when the model is `gpt-4o-transcribe-diarize` |
| `Transcribe.TranscribeAudio` | lib/transcribe.ts:29-58 | model and language default to `DEFAULT_MODEL` and `'ja'`; the result's text is the reply's text; segments are present iff the model is diarize and the reply has them |
| `AudioRoute.VerifySignature` | app/api/audio/route.ts:24-59 | the route's copy of the verdict: `valid` iff `error` is null |
| `AudioRoute.VerifySignatureAgreesWithAuth` | app/api/audio/route.ts:24-59 | the route's copy gives the same verdict as `lib/auth.ts` on every input |
| `AudioRoute.HasRequiredFields` | app/api/audio/route.ts:75 | audio, sessionId, chunkId and userId are all present and non-empty; `Post` answers 400 with the missing-fields error iff this fails |
| `AudioRoute.HeaderOrEmpty` | app/api/audio/route.ts:88-89 | a missing signature header reads as `''` |
| `AudioRoute.SelectModel` | app/api/audio/route.ts:83-85 | the chosen model is the requested one iff that is in `SUPPORTED_MODELS`, otherwise `gpt-4o-transcribe`, and it is always a supported model |
| `AudioRoute.ErrorBody` | app/api/audio/route.ts:102 | the 401 body is `{error}` with the verdict's reason |
| `AudioRoute.Post` | app/api/audio/route.ts:61-143 | see the note below the table |
| `AudioRoute.MissingTimestampHeaderRejected` | app/api/audio/route.ts:88-98 | with a secret set, a request without `x-standby-timestamp` is rejected as having an invalid timestamp |

The contract of `AudioRoute.Post` states the following:
- The status is 400, 401 or 200.
- It is 400 iff audio, sessionId, chunkId or userId is missing or empty. That body is the missing-fields error.
- Otherwise it is 401 iff the verdict on the two headers is invalid. That body is `{error}`. The form's `timestamp` field is never consulted.
- The transcription service is called iff the status is 200.
- When it is called, it receives the diarize options iff the model is diarize.
- The 200 body echoes sessionId, chunkId, model and text with `success: true`. It carries `segments` iff the model is diarize and the reply has segments.

## Left out

- HMAC-SHA256 internals (RFC 2104, FIPS 180-4): any function from key and message bytes to 32 bytes stands for it.
- The constant running time of `timingSafeEqual`. Timing cannot be stated here; only its result and its length-mismatch exception are modelled.
- `Date.now()` and `process.env`: the clock and the secret are parameters.
- JavaScript double precision in `parseInt` and in the age subtraction: values are unbounded integers. A timestamp of hundreds of digits gives `Infinity` in JavaScript and a huge integer here; both pass or fail the freshness check alike.
- `String(n)` writes numbers of 10^21 and above in exponent notation (`"1e+21"`, which `parseInt` reads as 1). `JsNumber.DecimalString` always writes plain positional digits, so `ParseIntDecimalString` speaks about those digits, not about JavaScript's `String(n)` for such values.
- Lone UTF-16 surrogates in JavaScript strings, which `Buffer.from` turns into U+FFFD. Dafny strings hold Unicode scalar values only.
- `console.warn`, `console.log` and `console.error`: logging does not affect any result.
- The OpenAI client, `request.formData()`, `NextResponse` and async/await. The service is a function parameter and the form is a record.
- A file sent under a text field name (sessionId, chunkId, userId, timestamp, model): text fields are modelled as strings.
- Case-insensitive header lookup: headers are a map keyed by lower-case name.
- The generic 500 response (app/api/audio/route.ts:144-150). It only maps exceptions thrown by the foreign calls above.
- The `GET` health check (app/api/audio/route.ts:154-156). It returns a constant body.
- The route redeclares `SUPPORTED_MODELS`, `DEFAULT_MODEL` and `VerifyResult` (app/api/audio/route.ts:10-22) with the same text as lib/transcribe.ts and lib/auth.ts. The model uses one definition of each.
- app/page.tsx, app/layout.tsx and next.config.js: static markup and framework configuration are not part of this model.
