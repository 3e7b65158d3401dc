/**
 * The define-challenge handler: from the session history and the challenge
 * name currently in the response it decides whether to fail the login,
 * issue tokens, or ask for the verification challenge.
 */
module DefineAuthChallenge {
  import opened Wrappers
  import opened Cognito

  /** What the handler writes: both flags, and the challenge name it leaves
      in the response. */
  datatype Decision = Decision(issueTokens: bool, failAuthentication: bool, challengeName: Option<string>)

  /** The first-match decision table, read as a specification: each flag
      stated on its own, independently of the order of the branches. */
  function Decide(session: seq<ChallengeResult>, challengeName: Option<string>, expected: string): (d: Decision)
    ensures !(d.issueTokens && d.failAuthentication)
    ensures d.issueTokens <==>
      |session| > 0 && challengeName == Some(expected) && session[0].challengeResult == Some(true)
    ensures d.failAuthentication <==>
      |session| > 0 && (challengeName != Some(expected) || session[0].challengeResult == Some(false))
    ensures d.challengeName == if d.issueTokens || d.failAuthentication then challengeName else Some(expected)
  {
    if |session| > 0 && challengeName != Some(expected) then
      Decision(false, true, challengeName)
    else if |session| > 0 && challengeName == Some(expected) && session[0].challengeResult == Some(false) then
      Decision(false, true, challengeName)
    else if |session| > 0 && challengeName == Some(expected) && session[0].challengeResult == Some(true) then
      Decision(true, false, challengeName)
    else
      Decision(false, false, Some(expected))
  }

  /** Only the result of the first history entry is consulted: neither its
      challenge name nor any later entry changes the decision. */
  lemma FirstResultOnly(s1: seq<ChallengeResult>, s2: seq<ChallengeResult>, challengeName: Option<string>, expected: string)
    requires |s1| > 0 && |s2| > 0 && s1[0].challengeResult == s2[0].challengeResult
    ensures Decide(s1, challengeName, expected) == Decide(s2, challengeName, expected)
  {
  }

  /** A round with no history always asks for the verification challenge,
      whatever challenge name the response held. */
  lemma EmptySessionAsksForChallenge(challengeName: Option<string>, expected: string)
    ensures Decide([], challengeName, expected) == Decision(false, false, Some(expected))
  {
  }

  /** A mismatched challenge name fails the login even after a passed attempt. */
  lemma MismatchFailsAfterPass(session: seq<ChallengeResult>, other: string, expected: string)
    requires |session| > 0 && session[0].challengeResult == Some(true) && other != expected
    ensures Decide(session, Some(other), expected) == Decision(false, true, Some(other))
  {
  }

  /** The handler: assigns both flags in every branch, writes the challenge
      name only in the new-session branch, and returns the same event. */
  method DefineAuthChallengeHandler(event: Event, config: AuthConfig) returns (r: Event)
    modifies event.response
    ensures r == event
    ensures var d := Decide(event.request.session, old(event.response.challengeName), config.verificationChallengeName);
      event.response.issueTokens == Some(d.issueTokens) &&
      event.response.failAuthentication == Some(d.failAuthentication) &&
      event.response.challengeName == d.challengeName
    ensures event.response.privateChallengeParameters == old(event.response.privateChallengeParameters)
    ensures event.response.publicChallengeParameters == old(event.response.publicChallengeParameters)
    ensures event.response.answerCorrect == old(event.response.answerCorrect)
  {
    var session := event.request.session;
    var expected := config.verificationChallengeName;
    if |session| > 0 && event.response.challengeName != Some(expected) {
      // an existing session under the wrong challenge name
      event.response.issueTokens := Some(false);
      event.response.failAuthentication := Some(true);
    } else if |session| > 0 && event.response.challengeName == Some(expected) && session[0].challengeResult == Some(false) {
      // the first attempt failed
      event.response.issueTokens := Some(false);
      event.response.failAuthentication := Some(true);
    } else if |session| > 0 && event.response.challengeName == Some(expected) && session[0].challengeResult == Some(true) {
      // the first attempt passed
      event.response.issueTokens := Some(true);
      event.response.failAuthentication := Some(false);
    } else {
      // a new session: ask for the verification challenge
      event.response.issueTokens := Some(false);
      event.response.failAuthentication := Some(false);
      event.response.challengeName := Some(expected);
    }
    r := event;
  }
}
