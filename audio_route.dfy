/**
 * The audio upload endpoint (app/api/audio/route.ts): validates the form,
 * picks the model, authenticates the request from its headers with the
 * route's own copy of verifySignature, and only then asks the transcription
 * service and shapes the JSON response.
 */
module AudioRoute {
  import opened Wrappers
  import opened Encoding
  import opened JsNumber
  import opened NodeCrypto
  import opened TranscriptionService
  import Auth
  import opened Transcribe

  /** The route's own MAX_TIMESTAMP_AGE_MS: five minutes. */
  const MaxTimestampAgeMs: int := 5 * 60 * 1000

  const TimestampHeader: string := "x-standby-timestamp"
  const SignatureHeader: string := "x-standby-signature"
  const MissingFieldsError: string := "Missing required fields: audio, sessionId, chunkId, userId"

  /**
   * The route's duplicate of verifySignature; it reads the same secret and
   * builds the same payload and signature.
   */
  function VerifySignature(secret: string, now: int, hmac: Hmac, timestamp: string, signature: string,
                           sessionId: string, chunkId: string, userId: string): (r: Auth.VerifyResult)
    ensures r.valid <==> r.error.None?
  {
    if secret == "" then Auth.VerifyResult(true, None)
    else
      var parsed := ParseInt(timestamp);
      if parsed.None? || now - parsed.value > MaxTimestampAgeMs then
        Auth.VerifyResult(false, Some("Request too old or invalid timestamp"))
      else
        var payload := timestamp + "." + sessionId + "." + chunkId + "." + userId;
        var expected := "v1=" + HexEncode(hmac(Utf8Encode(secret), Utf8Encode(payload)));
        match TimingSafeEqual(Utf8Encode(signature), Utf8Encode(expected))
        case Success(valid) => Auth.VerifyResult(valid, if valid then None else Some("Invalid signature"))
        case Failure(_) => Auth.VerifyResult(false, Some("Invalid signature format"))
  }

  /** The route's copy gives the same verdict as the one in lib/auth.ts, on every input. */
  lemma VerifySignatureAgreesWithAuth(secret: string, now: int, hmac: Hmac, timestamp: string, signature: string,
                                      sessionId: string, chunkId: string, userId: string)
    ensures VerifySignature(secret, now, hmac, timestamp, signature, sessionId, chunkId, userId) ==
      Auth.VerifySignature(secret, now, hmac, timestamp, signature, sessionId, chunkId, userId)
  {
  }

  /** The multipart form; None for a field the form does not have. */
  datatype FormData = FormData(
    audio: Option<Upload>,
    sessionId: Option<string>,
    chunkId: Option<string>,
    timestamp: Option<string>,
    userId: Option<string>,
    model: Option<string>)

  /** Request headers, keyed by lower-case name. */
  type Headers = map<string, string>

  /** JavaScript truthiness of a form value: present and not the empty string. */
  predicate IsTruthyUpload(v: Option<Upload>) {
    v.Some? && v.value != TextUpload("")
  }

  predicate IsTruthyText(v: Option<string>) {
    v.Some? && v.value != ""
  }

  /** The required-fields guard: audio, sessionId, chunkId and userId are all truthy. */
  predicate HasRequiredFields(form: FormData) {
    IsTruthyUpload(form.audio) && IsTruthyText(form.sessionId) &&
    IsTruthyText(form.chunkId) && IsTruthyText(form.userId)
  }

  /** `request.headers.get(name) || ''`. */
  function HeaderOrEmpty(headers: Headers, name: string): (v: string)
    ensures name !in headers ==> v == ""
    ensures name in headers ==> v == headers[name]
  {
    if name in headers then headers[name] else ""
  }

  /** The requested model when it is a supported one, DEFAULT_MODEL otherwise. */
  function SelectModel(requested: Option<string>): (m: TranscriptionModel)
    ensures m in SupportedModels
    ensures requested.Some? && m == requested.value <==> requested.Some? && IsValidModel(requested.value)
    ensures requested.None? || m != requested.value ==> m == DefaultModel
  {
    if requested.Some? && requested.value != "" && requested.value in SupportedModels then requested.value
    else DefaultModel
  }

  /** A JSON value of a response body. */
  datatype Json = JString(s: string) | JBool(b: bool) | JNull | JSegments(segments: seq<Segment>)

  datatype HttpResponse = HttpResponse(status: int, body: map<string, Json>)

  /** `{ error }`: JSON keeps a null error as null. */
  function ErrorBody(error: Option<string>): (body: map<string, Json>)
    ensures body.Keys == {"error"}
    ensures error.Some? ==> body["error"] == JString(error.value)
  {
    map["error" := if error.Some? then JString(error.value) else JNull]
  }

  /**
   * POST. Returns the response and the request sent to the transcription
   * service, None when the service was not called. The signature check reads
   * only the two headers (missing ones count as ''), never the form's
   * timestamp field.
   */
  method Post(secret: string, now: int, hmac: Hmac, form: FormData, headers: Headers, service: Service)
    returns (response: HttpResponse, sent: Option<CreateParams>)
    ensures response.status == 200 || response.status == 400 || response.status == 401
    ensures sent.Some? <==> response.status == 200
    ensures response.status == 400 <==> !HasRequiredFields(form)
    ensures response.status == 400 ==> response.body == map["error" := JString(MissingFieldsError)]
    ensures HasRequiredFields(form) ==>
      var verdict := VerifySignature(secret, now, hmac,
        HeaderOrEmpty(headers, TimestampHeader), HeaderOrEmpty(headers, SignatureHeader),
        form.sessionId.value, form.chunkId.value, form.userId.value);
      (response.status == 401 <==> !verdict.valid) &&
      (response.status == 401 ==> verdict.error.Some? && response.body == map["error" := JString(verdict.error.value)])
    ensures sent.Some? ==>
      var model := SelectModel(form.model);
      var transcription := service(sent.value);
      && sent.value == BuildCreateParams(form.audio.value, model, DefaultLanguage)
      && response.body.Keys - {"segments"} == {"success", "sessionId", "chunkId", "model", "text"}
      && response.body["success"] == JBool(true)
      && response.body["sessionId"] == JString(form.sessionId.value)
      && response.body["chunkId"] == JString(form.chunkId.value)
      && response.body["model"] == JString(model)
      && response.body["text"] == JString(transcription.text)
      && ("segments" in response.body <==> model == DiarizeModel && transcription.segments.Some?)
      && ("segments" in response.body ==> response.body["segments"] == JSegments(transcription.segments.value))
  {
    if !HasRequiredFields(form) {
      response := HttpResponse(400, map["error" := JString(MissingFieldsError)]);
      sent := None;
      return;
    }
    var audio, sessionId, chunkId, userId := form.audio.value, form.sessionId.value, form.chunkId.value, form.userId.value;

    var model := SelectModel(form.model);

    var signatureTimestamp := HeaderOrEmpty(headers, TimestampHeader);
    var signature := HeaderOrEmpty(headers, SignatureHeader);

    var verdict := VerifySignature(secret, now, hmac, signatureTimestamp, signature, sessionId, chunkId, userId);
    if !verdict.valid {
      response := HttpResponse(401, ErrorBody(verdict.error));
      sent := None;
      return;
    }

    var isDiarize := model == DiarizeModel;
    var params := BuildCreateParams(audio, model, DefaultLanguage);
    var transcription := service(params);

    var body := map[
      "success" := JBool(true),
      "sessionId" := JString(sessionId),
      "chunkId" := JString(chunkId),
      "model" := JString(model),
      "text" := JString(transcription.text)];
    if isDiarize && transcription.segments.Some? {
      body := body["segments" := JSegments(transcription.segments.value)];
    }
    response := HttpResponse(200, body);
    sent := Some(params);
  }

  /** With a secret set, a request without the timestamp header is rejected as having an invalid timestamp. */
  lemma MissingTimestampHeaderRejected(secret: string, now: int, hmac: Hmac, headers: Headers, signature: string,
                                       sessionId: string, chunkId: string, userId: string)
    requires secret != "" && TimestampHeader !in headers
    ensures VerifySignature(secret, now, hmac, HeaderOrEmpty(headers, TimestampHeader), signature,
      sessionId, chunkId, userId) == Auth.VerifyResult(false, Some(Auth.TimestampError))
  {
  }
}
