/**
 * The identity provider's event that the three authentication handlers
 * receive and return: a read-only request and a response whose fields the
 * handlers assign in place.
 */
module Cognito {
  import opened Wrappers

  /** The two settings the handlers read from their configuration module:
      the name of the one supported challenge and how many seconds a code
      stays valid. */
  datatype AuthConfig = AuthConfig(verificationChallengeName: string, validityDuration: int)

  datatype UserAttributes = UserAttributes(email: string)

  /** One entry of the session history. `challengeResult` is None when the
      runtime stored a value that is neither True nor False. */
  datatype ChallengeResult = ChallengeResult(challengeName: string, challengeResult: Option<bool>)

  /** The request half of the event; no handler writes to it. A session the
      runtime leaves out is the empty sequence. */
  datatype Request = Request(
    session: seq<ChallengeResult>,
    challengeName: string,
    userAttributes: UserAttributes,
    privateChallengeParameters: map<string, string>,
    challengeAnswer: string)

  /** The response half of the event. A field is None until something sets it. */
  class Response {
    var challengeName: Option<string>
    var issueTokens: Option<bool>
    var failAuthentication: Option<bool>
    var privateChallengeParameters: Option<map<string, string>>
    var publicChallengeParameters: Option<map<string, string>>
    var answerCorrect: Option<bool>

    constructor (challengeName: Option<string>)
      ensures this.challengeName == challengeName
      ensures issueTokens == None && failAuthentication == None && answerCorrect == None
      ensures privateChallengeParameters == None && publicChallengeParameters == None
    {
      this.challengeName := challengeName;
      issueTokens, failAuthentication, answerCorrect := None, None, None;
      privateChallengeParameters, publicChallengeParameters := None, None;
    }
  }

  class Event {
    const request: Request
    const response: Response

    constructor (request: Request, response: Response)
      ensures this.request == request && this.response == response
    {
      this.request := request;
      this.response := response;
    }
  }

  /** `int(time.time())`: the clock reading in seconds, truncated toward zero. */
  function Seconds(now: real): (t: int)
    ensures 0.0 <= now ==> t as real <= now < t as real + 1.0
    ensures now < 0.0 ==> t as real - 1.0 < now <= t as real
  {
    if 0.0 <= now then now.Floor else -((-now).Floor)
  }
}
