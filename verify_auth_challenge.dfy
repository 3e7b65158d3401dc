/**
 * The verify-challenge handler: decodes the stored verification code and
 * accepts the submitted answer when it equals the code, the decoded email
 * is the user's, and the code has not expired.
 */
module VerifyAuthChallenge {
  import opened Wrappers
  import opened Cognito
  import opened Foreign
  import CreateAuthChallenge

  /** `privateChallengeParameters.answer`: the code the create handler stored. */
  function StoredAnswer(params: map<string, string>): Result<string> {
    if "answer" in params then Ok(params["answer"]) else Err(KeyError)
  }

  /** A request carrying the private parameters the create handler writes
      and, as its answer, the code it generated, reads that code back and
      meets the first conjunct: only the email and expiry checks remain. */
  lemma StoredAnswerIsCreatedCode(lib: Library, request: Request, emailAddress: string, timestamp: int,
                                  decodedEmail: string, decodedTimestamp: int, validityDuration: int, currentTime: int)
    requires request.privateChallengeParameters ==
      map["answer" := CreateAuthChallenge.GenerateVerificationCode(lib, emailAddress, timestamp)]
    requires request.challengeAnswer == CreateAuthChallenge.GenerateVerificationCode(lib, emailAddress, timestamp)
    ensures StoredAnswer(request.privateChallengeParameters) == Ok(request.challengeAnswer)
    ensures AnswerCorrect(request.challengeAnswer, StoredAnswer(request.privateChallengeParameters).value,
                          decodedEmail, decodedTimestamp, request.userAttributes.email, validityDuration, currentTime) <==>
      decodedEmail == request.userAttributes.email && decodedTimestamp + validityDuration >= currentTime
  {
  }

  /** Python's `hasattr(v, name)` for the two names the decoder asks about.
      No value `json.loads` builds (dict, list, str, int, float, bool, None)
      has an attribute "email_address" or "timestamp": the keys of a dict
      are not attributes. */
  predicate HasAttribute(v: JsonValue, name: string) {
    false
  }

  /** `decode_verification_code` as written: parse, assert both attributes,
      read both attributes. With assertions enabled it raises
      AssertionError; without them the attribute read raises AttributeError. */
  function DecodeAsWritten(lib: Library, code: string): Result<(string, int)> {
    match lib.loads(code)
    case Err(e) => Err(e)
    case Ok(v) =>
      if !(HasAttribute(v, "email_address") && HasAttribute(v, "timestamp")) then Err(AssertionError)
      else Err(AttributeError)
  }

  /** Whatever the parser returns, the decoder as written never yields an
      email address and a timestamp, so the handler as written never sets
      answerCorrect. */
  lemma DecodeAsWrittenNeverSucceeds(lib: Library, code: string)
    ensures DecodeAsWritten(lib, code).Err?
  {
  }

  /** A JSON object read as a Python dict: the last member with the key wins. */
  function Lookup(members: seq<(string, JsonValue)>, key: string): (r: Option<JsonValue>)
    ensures r.Some? <==> exists i :: 0 <= i < |members| && members[i].0 == key
    ensures r.Some? ==>
      exists i :: 0 <= i < |members| && members[i] == (key, r.value) && (forall k :: i < k < |members| ==> members[k].0 != key)
  {
    if members == [] then None
    else if members[|members| - 1].0 == key then Some(members[|members| - 1].1)
    else Lookup(members[..|members| - 1], key)
  }

  /** Reads the two fields of a decoded object by key. */
  function DecodeObject(v: JsonValue): Result<(string, int)> {
    if !v.JObject? then Err(TypeError)
    else
      match (Lookup(v.members, "email_address"), Lookup(v.members, "timestamp"))
      case (Some(JString(emailAddress)), Some(JInt(timestamp))) => Ok((emailAddress, timestamp))
      case (None, _) => Err(KeyError)
      case (_, None) => Err(KeyError)
      case _ => Err(ValueError)
  }

  /** The decoder as evidently intended: parse the code and read the two
      fields by key. */
  function DecodeVerificationCode(lib: Library, code: string): Result<(string, int)> {
    match lib.loads(code)
    case Err(e) => Err(e)
    case Ok(v) => DecodeObject(v)
  }

  /** Reading the fields back out of the object the create handler
      serialises gives exactly the email address and the timestamp it was
      built from. */
  lemma DecodeObjectOfPreImage(emailAddress: string, timestamp: int)
    ensures DecodeObject(CreateAuthChallenge.PreImage(emailAddress, timestamp)) == Ok((emailAddress, timestamp))
  {
    var m := CreateAuthChallenge.PreImage(emailAddress, timestamp).members;
    assert Lookup(m, "timestamp") == Some(JInt(timestamp));
    assert m[..1] == [("email_address", JString(emailAddress))];
    assert Lookup(m, "email_address") == Lookup(m[..1], "email_address");
  }

  /** Given a parser that inverts the serialiser on the pre-image, decoding
      the serialised pre-image recovers the inputs. */
  lemma DecodeRoundTrip(lib: Library, emailAddress: string, timestamp: int)
    requires var v := CreateAuthChallenge.PreImage(emailAddress, timestamp); lib.loads(lib.dumps(v)) == Ok(v)
    ensures DecodeVerificationCode(lib, lib.dumps(CreateAuthChallenge.PreImage(emailAddress, timestamp))) ==
      Ok((emailAddress, timestamp))
  {
    DecodeObjectOfPreImage(emailAddress, timestamp);
  }

  /** The accepting condition: the three conjuncts of the handler. */
  predicate AnswerCorrect(challengeAnswer: string, verificationCode: string, emailAddress: string, timestamp: int,
                          userEmail: string, validityDuration: int, currentTime: int)
  {
    challengeAnswer == verificationCode && emailAddress == userEmail && timestamp + validityDuration >= currentTime
  }

  /** The expiry bound is inclusive: accepted at exactly timestamp + duration,
      rejected one second later. */
  lemma ExpiryIsInclusive(code: string, emailAddress: string, timestamp: int, validityDuration: int)
    ensures AnswerCorrect(code, code, emailAddress, timestamp, emailAddress, validityDuration, timestamp + validityDuration)
    ensures !AnswerCorrect(code, code, emailAddress, timestamp, emailAddress, validityDuration, timestamp + validityDuration + 1)
  {
  }

  /** There is no lower time bound: a timestamp at or after the current
      time passes the time check for any non-negative duration. */
  lemma NoLowerTimeBound(code: string, emailAddress: string, timestamp: int, validityDuration: int, currentTime: int)
    requires currentTime <= timestamp && 0 <= validityDuration
    ensures AnswerCorrect(code, code, emailAddress, timestamp, emailAddress, validityDuration, currentTime)
  {
  }

  /** The email is bound to the user's attribute: a decoded email other
      than the user's is rejected whatever the answer and the time. */
  lemma EmailMismatchRejects(challengeAnswer: string, code: string, emailAddress: string, timestamp: int,
                             userEmail: string, validityDuration: int, currentTime: int)
    requires emailAddress != userEmail
    ensures !AnswerCorrect(challengeAnswer, code, emailAddress, timestamp, userEmail, validityDuration, currentTime)
  {
  }

  /** The handler. It fails before writing anything when the stored answer
      is missing or does not decode; otherwise it writes only answerCorrect
      and returns the same event. */
  method VerifyAuthChallengeHandler(event: Event, config: AuthConfig, lib: Library, now: real) returns (r: Result<Event>)
    modifies event.response
    ensures StoredAnswer(event.request.privateChallengeParameters).Err? ==>
      r == Err(StoredAnswer(event.request.privateChallengeParameters).error) &&
      event.response.answerCorrect == old(event.response.answerCorrect)
    ensures StoredAnswer(event.request.privateChallengeParameters).Ok? ==>
      var code := StoredAnswer(event.request.privateChallengeParameters).value;
      var decoded := DecodeVerificationCode(lib, code);
      (decoded.Err? ==> r == Err(decoded.error) && event.response.answerCorrect == old(event.response.answerCorrect)) &&
      (decoded.Ok? ==>
         r == Ok(event) &&
         event.response.answerCorrect == Some(AnswerCorrect(event.request.challengeAnswer, code,
           decoded.value.0, decoded.value.1, event.request.userAttributes.email, config.validityDuration, Seconds(now))))
    ensures event.response.challengeName == old(event.response.challengeName)
    ensures event.response.issueTokens == old(event.response.issueTokens)
    ensures event.response.failAuthentication == old(event.response.failAuthentication)
    ensures event.response.privateChallengeParameters == old(event.response.privateChallengeParameters)
    ensures event.response.publicChallengeParameters == old(event.response.publicChallengeParameters)
  {
    var stored := StoredAnswer(event.request.privateChallengeParameters);
    if stored.Err? {
      return Err(stored.error);
    }
    var verificationCode := stored.value;
    var decoded := DecodeVerificationCode(lib, verificationCode);
    if decoded.Err? {
      return Err(decoded.error);
    }
    var (emailAddress, timestamp) := decoded.value;
    var currentTime := Seconds(now);
    if event.request.challengeAnswer == verificationCode
      && emailAddress == event.request.userAttributes.email
      && timestamp + config.validityDuration >= currentTime
    {
      event.response.answerCorrect := Some(true);
    } else {
      event.response.answerCorrect := Some(false);
    }
    r := Ok(event);
  }
}
