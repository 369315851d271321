/**
 * Request authentication (`verifySignature` of lib/auth.ts). A request
 * carries a timestamp, a signature and three identifiers; the verdict says
 * whether the signature is the HMAC-SHA256 of the canonical payload under the
 * configured secret and the timestamp is fresh enough. The secret, the clock
 * and HMAC itself are parameters.
 */
module Auth {
  import opened Wrappers
  import opened Encoding
  import opened JsNumber
  import opened NodeCrypto

  /** MAX_TIMESTAMP_AGE_MS: five minutes, in milliseconds. */
  const MaxTimestampAgeMs: int := 5 * 60 * 1000

  /** The version tag in front of every signature. */
  const SignaturePrefix: string := "v1="

  const TimestampError: string := "Request too old or invalid timestamp"
  const MismatchError: string := "Invalid signature"
  const FormatError: string := "Invalid signature format"

  /** VerifyResult: `error` is JavaScript's `string | null`. */
  datatype VerifyResult = VerifyResult(valid: bool, error: Option<string>)

  /** The message that is signed: the four fields joined by periods, in a fixed order. */
  function CanonicalPayload(timestamp: string, sessionId: string, chunkId: string, userId: string): (p: string)
    ensures p == JoinWithPeriods([timestamp, sessionId, chunkId, userId])
  {
    var fields := [timestamp, sessionId, chunkId, userId];
    assert JoinWithPeriods(fields[3..]) == userId;
    assert JoinWithPeriods(fields[2..]) == chunkId + "." + userId;
    assert JoinWithPeriods(fields[1..]) == sessionId + "." + (chunkId + "." + userId);
    timestamp + "." + sessionId + "." + chunkId + "." + userId
  }

  /** `'v1=' + createHmac('sha256', secret).update(payload).digest('hex')`. */
  function ExpectedSignature(secret: string, hmac: Hmac, payload: string): (sig: string)
    ensures |sig| == 67 && sig[..3] == SignaturePrefix
    ensures forall i :: 3 <= i < |sig| ==> IsLowerHexDigit(sig[i])
    ensures IsAscii(sig) && |Utf8Encode(sig)| == 67
    ensures HexDecode(sig[3..]) == Some(hmac(Utf8Encode(secret), Utf8Encode(payload)))
  {
    var digest := hmac(Utf8Encode(secret), Utf8Encode(payload));
    var sig := SignaturePrefix + HexEncode(digest);
    assert sig[3..] == HexEncode(digest);
    HexRoundTrip(digest);
    assert forall i :: 3 <= i < |sig| ==> sig[i] == sig[3..][i - 3];
    sig
  }

  /** The freshness check: a parseable timestamp no more than five minutes old. */
  predicate PassesFreshness(timestamp: string, now: int) {
    var parsed := ParseInt(timestamp);
    parsed.Some? && now - parsed.value <= MaxTimestampAgeMs
  }

  /**
   * verifySignature. An empty secret accepts everything; otherwise a stale or
   * unparseable timestamp, a signature of the wrong byte length and a wrong
   * signature are each rejected with their own reason.
   */
  function VerifySignature(secret: string, now: int, hmac: Hmac, timestamp: string, signature: string,
                           sessionId: string, chunkId: string, userId: string): (r: VerifyResult)
    ensures r.valid <==> r.error.None?
    ensures secret == "" ==> r.valid
    ensures secret != "" ==> (r.error == Some(TimestampError) <==> !PassesFreshness(timestamp, now))
  {
    if secret == "" then VerifyResult(true, None)
    else
      var parsed := ParseInt(timestamp);
      if parsed.None? || now - parsed.value > MaxTimestampAgeMs then
        VerifyResult(false, Some(TimestampError))
      else
        var payload := CanonicalPayload(timestamp, sessionId, chunkId, userId);
        var expected := ExpectedSignature(secret, hmac, payload);
        match TimingSafeEqual(Utf8Encode(signature), Utf8Encode(expected))
        case Success(valid) => VerifyResult(valid, if valid then None else Some(MismatchError))
        case Failure(_) => VerifyResult(false, Some(FormatError))
  }

  /**
   * With a secret set, a request is valid exactly when its timestamp is fresh
   * and its signature is the expected one, character for character.
   */
  lemma ValidIffExpectedSignature(secret: string, now: int, hmac: Hmac, timestamp: string, signature: string,
                                  sessionId: string, chunkId: string, userId: string)
    requires secret != ""
    ensures VerifySignature(secret, now, hmac, timestamp, signature, sessionId, chunkId, userId).valid <==>
      PassesFreshness(timestamp, now) &&
      signature == ExpectedSignature(secret, hmac, CanonicalPayload(timestamp, sessionId, chunkId, userId))
  {
    var expected := ExpectedSignature(secret, hmac, CanonicalPayload(timestamp, sessionId, chunkId, userId));
    Utf8MatchesAscii(signature, expected);
  }

  /** A fresh request signed as the scheme prescribes is accepted. */
  lemma SignedRequestVerifies(secret: string, now: int, hmac: Hmac, timestamp: string,
                              sessionId: string, chunkId: string, userId: string)
    requires PassesFreshness(timestamp, now)
    ensures VerifySignature(secret, now, hmac, timestamp,
      ExpectedSignature(secret, hmac, CanonicalPayload(timestamp, sessionId, chunkId, userId)),
      sessionId, chunkId, userId) == VerifyResult(true, None)
  {
    if secret != "" {
      ValidIffExpectedSignature(secret, now, hmac, timestamp,
        ExpectedSignature(secret, hmac, CanonicalPayload(timestamp, sessionId, chunkId, userId)),
        sessionId, chunkId, userId);
    }
  }

  /** Changing any one character of the expected signature makes the request invalid. */
  lemma MutatedSignatureRejected(secret: string, now: int, hmac: Hmac, timestamp: string,
                                 sessionId: string, chunkId: string, userId: string, i: nat, c: char)
    requires secret != ""
    requires i < 67
    requires c != ExpectedSignature(secret, hmac, CanonicalPayload(timestamp, sessionId, chunkId, userId))[i]
    ensures !VerifySignature(secret, now, hmac, timestamp,
      ExpectedSignature(secret, hmac, CanonicalPayload(timestamp, sessionId, chunkId, userId))[i := c],
      sessionId, chunkId, userId).valid
  {
    var expected := ExpectedSignature(secret, hmac, CanonicalPayload(timestamp, sessionId, chunkId, userId));
    assert expected[i := c][i] != expected[i];
    ValidIffExpectedSignature(secret, now, hmac, timestamp, expected[i := c], sessionId, chunkId, userId);
  }

  /**
   * A fresh timestamp whose signature has a different UTF-8 byte length than
   * the 67-byte expected one takes the exception path: 'Invalid signature format'.
   */
  lemma LengthMismatchIsFormatError(secret: string, now: int, hmac: Hmac, timestamp: string, signature: string,
                                    sessionId: string, chunkId: string, userId: string)
    requires secret != "" && PassesFreshness(timestamp, now)
    requires |Utf8Encode(signature)| != 67
    ensures VerifySignature(secret, now, hmac, timestamp, signature, sessionId, chunkId, userId) ==
      VerifyResult(false, Some(FormatError))
  {
  }

  /**
   * When the byte lengths agree, the verdict is the byte comparison, and a
   * mismatch is reported as 'Invalid signature'.
   */
  lemma EqualLengthIsByteComparison(secret: string, now: int, hmac: Hmac, timestamp: string, signature: string,
                                    sessionId: string, chunkId: string, userId: string)
    requires secret != "" && PassesFreshness(timestamp, now)
    requires |Utf8Encode(signature)| == 67
    ensures var expected := ExpectedSignature(secret, hmac, CanonicalPayload(timestamp, sessionId, chunkId, userId));
      var r := VerifySignature(secret, now, hmac, timestamp, signature, sessionId, chunkId, userId);
      (r.valid <==> Utf8Encode(signature) == Utf8Encode(expected)) &&
      (!r.valid ==> r.error == Some(MismatchError))
  {
  }

  /** Five minutes old exactly is still fresh; one millisecond more is not. */
  lemma FreshnessBoundary(secret: string, hmac: Hmac, sent: nat, signature: string,
                          sessionId: string, chunkId: string, userId: string)
    requires secret != ""
    ensures VerifySignature(secret, sent + 300000, hmac, DecimalString(sent), signature, sessionId, chunkId, userId).error
      != Some(TimestampError)
    ensures VerifySignature(secret, sent + 300001, hmac, DecimalString(sent), signature, sessionId, chunkId, userId)
      == VerifyResult(false, Some(TimestampError))
  {
    ParseIntDecimalString(sent);
    assert PassesFreshness(DecimalString(sent), sent + 300000);
    assert !PassesFreshness(DecimalString(sent), sent + 300001);
  }

  /** The freshness check is one-sided: a timestamp in the future is never rejected as stale. */
  lemma FutureTimestampPassesFreshness(now: int, timestamp: string)
    requires ParseInt(timestamp).Some? && ParseInt(timestamp).value >= now
    ensures PassesFreshness(timestamp, now)
  {
  }

  /**
   * A timestamp of digits followed by something else ("123abc") passes the
   * freshness check as the value of its digits (123), yet the payload that
   * must be signed is built from the raw string.
   */
  lemma RawTimestampIsSigned(secret: string, hmac: Hmac, digits: string, trailer: string, signature: string,
                             sessionId: string, chunkId: string, userId: string)
    requires secret != ""
    requires digits != [] && AllDigits(digits)
    requires trailer == [] || !IsDigit(trailer[0])
    ensures ParseInt(digits + trailer) == Some(DecimalValue(digits))
    ensures var now := DecimalValue(digits);
      VerifySignature(secret, now, hmac, digits + trailer, signature, sessionId, chunkId, userId).valid <==>
      signature == ExpectedSignature(secret, hmac, digits + trailer + "." + sessionId + "." + chunkId + "." + userId)
  {
    ParseIntDigitsThen(digits, trailer);
    ValidIffExpectedSignature(secret, DecimalValue(digits), hmac, digits + trailer, signature, sessionId, chunkId, userId);
  }

  /**
   * An ASCII signature with other than 67 characters, such as the 11 of
   * "v1=deadbeef", is a format error rather than a mismatch, whatever the secret.
   */
  lemma WrongLengthSignatureIsFormatError(secret: string, now: int, hmac: Hmac, timestamp: string, signature: string,
                                          sessionId: string, chunkId: string, userId: string)
    requires secret != "" && PassesFreshness(timestamp, now)
    requires IsAscii(signature) && |signature| != 67
    ensures VerifySignature(secret, now, hmac, timestamp, signature, sessionId, chunkId, userId) ==
      VerifyResult(false, Some(FormatError))
  {
    LengthMismatchIsFormatError(secret, now, hmac, timestamp, signature, sessionId, chunkId, userId);
  }

  /** The fields split back out of a payload, at every period. */
  function SplitOnPeriods(p: string): (fields: seq<string>)
    ensures |fields| >= 1
  {
    if '.' !in p then [p]
    else
      var i := FirstPeriod(p);
      [p[..i]] + SplitOnPeriods(p[i + 1..])
  }

  function FirstPeriod(p: string): (i: nat)
    requires '.' in p
    ensures i < |p| && p[i] == '.' && '.' !in p[..i]
  {
    if p[0] == '.' then 0
    else
      var i := 1 + FirstPeriod(p[1..]);
      assert p[..i] == [p[0]] + p[1..][..i - 1];
      i
  }

  /** The fields joined by single periods, as the canonical payload joins its four. */
  function JoinWithPeriods(fields: seq<string>): string
    requires |fields| >= 1
  {
    if |fields| == 1 then fields[0] else fields[0] + "." + JoinWithPeriods(fields[1..])
  }

  lemma {:induction false} SplitAfterField(p: string, field: string, rest: string)
    requires '.' !in field && p == field + "." + rest
    ensures SplitOnPeriods(p) == [field] + SplitOnPeriods(rest)
  {
    assert p[|field|] == '.';
    var i := FirstPeriod(p);
    assert p[..|field|] == field;
    assert p[i + 1..] == rest;
  }

  /** Splitting undoes joining, as long as no field contains a period. */
  lemma {:induction false} SplitJoin(fields: seq<string>)
    requires |fields| >= 1
    requires forall i :: 0 <= i < |fields| ==> '.' !in fields[i]
    ensures SplitOnPeriods(JoinWithPeriods(fields)) == fields
  {
    if |fields| == 1 {
      assert '.' !in fields[0];
      assert fields == [fields[0]];
    } else {
      var rest := fields[1..];
      assert forall i :: 0 <= i < |rest| ==> '.' !in rest[i] by {
        forall i | 0 <= i < |rest| ensures '.' !in rest[i] { assert rest[i] == fields[i + 1]; }
      }
      SplitJoin(rest);
      assert '.' !in fields[0];
      SplitAfterField(JoinWithPeriods(fields), fields[0], JoinWithPeriods(rest));
      assert fields == [fields[0]] + rest;
    }
  }

  /**
   * While no field contains a period, the payload determines the four fields:
   * splitting it at the periods gives them back in order.
   */
  lemma PayloadDeterminesFields(timestamp: string, sessionId: string, chunkId: string, userId: string)
    requires '.' !in timestamp && '.' !in sessionId && '.' !in chunkId && '.' !in userId
    ensures SplitOnPeriods(CanonicalPayload(timestamp, sessionId, chunkId, userId)) ==
      [timestamp, sessionId, chunkId, userId]
  {
    SplitJoin([timestamp, sessionId, chunkId, userId]);
  }

  /**
   * With periods inside the fields the payload is ambiguous: two different
   * requests share one payload, so one signature is valid for both.
   */
  lemma PeriodsMakePayloadAmbiguous(secret: string, now: int, hmac: Hmac, timestamp: string, signature: string)
    ensures CanonicalPayload(timestamp, "a.b", "c", "d") == CanonicalPayload(timestamp, "a", "b.c", "d")
    ensures VerifySignature(secret, now, hmac, timestamp, signature, "a.b", "c", "d") ==
      VerifySignature(secret, now, hmac, timestamp, signature, "a", "b.c", "d")
  {
    assert CanonicalPayload(timestamp, "a.b", "c", "d") == timestamp + "." + "a.b.c.d";
    assert CanonicalPayload(timestamp, "a", "b.c", "d") == timestamp + "." + "a.b.c.d";
  }
}
