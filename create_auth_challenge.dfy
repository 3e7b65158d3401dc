/**
 * The create-challenge handler: derives a verification code from the
 * user's email address and the current second, stores it as the private
 * answer and publishes the email address.
 */
module CreateAuthChallenge {
  import opened Wrappers
  import opened Cognito
  import opened Foreign

  const HexDigits: string := "0123456789abcdef"

  predicate IsLowerHex(c: char) {
    '0' <= c <= '9' || 'a' <= c <= 'f'
  }

  /** `hexdigest()`: two lower-case hexadecimal characters per byte, high nibble first. */
  function HexDigest(d: seq<Byte>): (h: string)
    ensures |h| == 2 * |d|
    ensures forall i :: 0 <= i < |h| ==> IsLowerHex(h[i])
  {
    if d == [] then [] else [HexDigits[d[0] / 16], HexDigits[d[0] % 16]] + HexDigest(d[1..])
  }

  function HexValue(c: char): (v: int)
    requires IsLowerHex(c)
    ensures 0 <= v < 16 && HexDigits[v] == c
  {
    if c <= '9' then c as int - '0' as int else c as int - 'a' as int + 10
  }

  /** Reads a string of hexadecimal pairs back into bytes. */
  function Unhex(h: string): seq<Byte>
    requires |h| % 2 == 0 && forall i :: 0 <= i < |h| ==> IsLowerHex(h[i])
  {
    if h == [] then [] else [HexValue(h[0]) * 16 + HexValue(h[1])] + Unhex(h[2..])
  }

  lemma {:induction false} UnhexHexDigest(d: seq<Byte>)
    ensures Unhex(HexDigest(d)) == d
  {
    if d != [] {
      var hi, lo := d[0] / 16, d[0] % 16;
      var h := HexDigest(d);
      assert h == [HexDigits[hi], HexDigits[lo]] + HexDigest(d[1..]);
      assert h[2..] == HexDigest(d[1..]);
      HexValueOf(hi);
      HexValueOf(lo);
      UnhexHexDigest(d[1..]);
    }
  }

  lemma HexValueOf(v: int)
    requires 0 <= v < 16
    ensures IsLowerHex(HexDigits[v]) && HexValue(HexDigits[v]) == v
  {
    assert HexDigits[v] == "0123456789abcdef"[v];
  }

  /** Distinct digests give distinct codes: the code determines its digest. */
  lemma HexDigestInjective(d1: seq<Byte>, d2: seq<Byte>)
    requires HexDigest(d1) == HexDigest(d2)
    ensures d1 == d2
  {
    UnhexHexDigest(d1);
    UnhexHexDigest(d2);
  }

  /** The object that is serialised and hashed: the key "email_address" and
      then the key "timestamp", holding exactly the two inputs. */
  function PreImage(emailAddress: string, timestamp: int): JsonValue {
    JObject([("email_address", JString(emailAddress)), ("timestamp", JInt(timestamp))])
  }

  /** Two different (email, timestamp) pairs never share a pre-image. */
  lemma PreImageDeterminesInputs(e1: string, t1: int, e2: string, t2: int)
    requires PreImage(e1, t1) == PreImage(e2, t2)
    ensures e1 == e2 && t1 == t2
  {
    assert PreImage(e1, t1).members[0].1 == JString(e1);
    assert PreImage(e1, t1).members[1].1 == JInt(t1);
  }

  /** `generate_verification_code`: the MD5 hex digest of the UTF-8 encoded
      JSON text of the pre-image; 32 lower-case hexadecimal characters. */
  function GenerateVerificationCode(lib: Library, emailAddress: string, timestamp: int): (code: string)
    ensures |code| == 32
    ensures forall i :: 0 <= i < |code| ==> IsLowerHex(code[i])
  {
    HexDigest(lib.md5(lib.encodeUtf8(lib.dumps(PreImage(emailAddress, timestamp)))))
  }

  /** A code is the digest of its pre-image and of nothing else: two codes
      are equal exactly when the MD5 digests of the two encoded texts are. */
  lemma CodesEqualIffDigestsEqual(lib: Library, e1: string, t1: int, e2: string, t2: int)
    ensures GenerateVerificationCode(lib, e1, t1) == GenerateVerificationCode(lib, e2, t2) <==>
      lib.md5(lib.encodeUtf8(lib.dumps(PreImage(e1, t1)))) == lib.md5(lib.encodeUtf8(lib.dumps(PreImage(e2, t2))))
  {
    var d1 := lib.md5(lib.encodeUtf8(lib.dumps(PreImage(e1, t1))));
    var d2 := lib.md5(lib.encodeUtf8(lib.dumps(PreImage(e2, t2))));
    if HexDigest(d1) == HexDigest(d2) {
      HexDigestInjective(d1, d2);
    }
  }

  /** `send_email`: not implemented in the source; it has no effect. */
  method SendEmail(emailAddress: string, verificationCode: string) {
  }

  /** The handler. For the verification challenge it replaces both parameter
      maps and returns the event; for any other challenge it returns nothing
      and leaves the response untouched. */
  method CreateAuthChallengeHandler(event: Event, config: AuthConfig, lib: Library, now: real) returns (r: Option<Event>)
    modifies event.response
    ensures event.request.challengeName == config.verificationChallengeName ==>
      r == Some(event) &&
      event.response.privateChallengeParameters ==
        Some(map["answer" := GenerateVerificationCode(lib, event.request.userAttributes.email, Seconds(now))]) &&
      event.response.publicChallengeParameters == Some(map["email_address" := event.request.userAttributes.email])
    ensures event.request.challengeName != config.verificationChallengeName ==>
      r == None &&
      event.response.privateChallengeParameters == old(event.response.privateChallengeParameters) &&
      event.response.publicChallengeParameters == old(event.response.publicChallengeParameters)
    ensures event.response.challengeName == old(event.response.challengeName)
    ensures event.response.issueTokens == old(event.response.issueTokens)
    ensures event.response.failAuthentication == old(event.response.failAuthentication)
    ensures event.response.answerCorrect == old(event.response.answerCorrect)
  {
    if event.request.challengeName == config.verificationChallengeName {
      var currentTime := Seconds(now);
      var verificationCode := GenerateVerificationCode(lib, event.request.userAttributes.email, currentTime);
      event.response.privateChallengeParameters := Some(map["answer" := verificationCode]);
      event.response.publicChallengeParameters := Some(map["email_address" := event.request.userAttributes.email]);
      r := Some(event);
    } else {
      r := None;
    }
  }
}
