/**
 * Address normalisation: `sanitize_email` reduces a formatted address such
 * as `Jordan M <remailable@getneutrality.org>` to the bare address.
 */
module Users {
  import opened Wrappers

  /** The characters Python's `str.isspace` accepts, which are the
      separators of `str.split()` with no argument. */
  predicate IsSpace(c: char) {
    c == ' ' || '\U{9}' <= c <= '\U{D}' || '\U{1C}' <= c <= '\U{1F}' ||
    c == '\U{85}' || c == '\U{A0}' || c == '\U{1680}' || '\U{2000}' <= c <= '\U{200A}' ||
    c == '\U{2028}' || c == '\U{2029}' || c == '\U{202F}' || c == '\U{205F}' || c == '\U{3000}'
  }

  predicate NoSpace(s: string) {
    forall k :: 0 <= k < |s| ==> !IsSpace(s[k])
  }

  predicate AllSpace(s: string) {
    forall k :: 0 <= k < |s| ==> IsSpace(s[k])
  }

  /** The end of `s[..j]` with trailing whitespace dropped. */
  function TrimmedEnd(s: string, j: nat): (e: nat)
    requires j <= |s|
    ensures e <= j
    ensures forall k :: e <= k < j ==> IsSpace(s[k])
    ensures e > 0 ==> !IsSpace(s[e - 1])
  {
    if j == 0 || !IsSpace(s[j - 1]) then j else TrimmedEnd(s, j - 1)
  }

  /** The start of the whitespace-free run that ends at `e`. */
  function TokenStart(s: string, e: nat): (b: nat)
    requires e <= |s|
    ensures b <= e
    ensures forall k :: b <= k < e ==> !IsSpace(s[k])
    ensures b > 0 ==> IsSpace(s[b - 1])
  {
    if e == 0 || IsSpace(s[e - 1]) then e else TokenStart(s, e - 1)
  }

  /** `s[b..e]` is the last whitespace-separated token of `s`: a non-empty
      whitespace-free run, preceded by whitespace or the start of `s`, and
      followed only by whitespace. */
  predicate IsLastToken(s: string, b: int, e: int) {
    0 <= b < e <= |s| &&
    (forall k :: b <= k < e ==> !IsSpace(s[k])) &&
    (b == 0 || IsSpace(s[b - 1])) &&
    (forall k :: e <= k < |s| ==> IsSpace(s[k]))
  }

  /** `t` is the last whitespace-separated token of `s`. */
  ghost predicate IsLastTokenOf(s: string, t: string) {
    exists b, e :: IsLastToken(s, b, e) && t == s[b..e]
  }

  /** `t` is the last token of `s` with its brackets stripped. */
  ghost predicate IsSanitizedFrom(s: string, t: string) {
    exists b, e :: IsLastToken(s, b, e) && t == StripBrackets(s[b..e])
  }

  /** Where `s.split()[-1]` lies in `s`, or None when `s` has no
      non-whitespace character. */
  function LastTokenBounds(s: string): (r: Option<(nat, nat)>)
    ensures r.None? <==> AllSpace(s)
    ensures r.Some? ==> IsLastToken(s, r.value.0, r.value.1)
  {
    var e := TrimmedEnd(s, |s|);
    if e == 0 then None else Some((TokenStart(s, e), e))
  }

  /** There is only one last token. */
  lemma LastTokenUnique(s: string, b1: int, e1: int, b2: int, e2: int)
    requires IsLastToken(s, b1, e1) && IsLastToken(s, b2, e2)
    ensures b1 == b2 && e1 == e2
  {
    // Each run ends on a non-space character and only spaces follow it,
    // so neither end can lie beyond the other.
    assert !IsSpace(s[e1 - 1]) && !IsSpace(s[e2 - 1]);
    assert e1 == e2;
    // Both runs then end together; the character before each start is a
    // space (or there is none), and everything inside is not.
    assert b1 > 0 ==> IsSpace(s[b1 - 1]);
    assert b2 > 0 ==> IsSpace(s[b2 - 1]);
  }

  /** `s.split()[-1]`: IndexError when the list of tokens is empty. */
  function LastToken(s: string): (r: Result<string>)
    ensures r.Err? <==> AllSpace(s)
    ensures r.Ok? ==> NoSpace(r.value) && |r.value| <= |s|
    ensures r.Ok? ==> IsLastTokenOf(s, r.value)
  {
    match LastTokenBounds(s)
    case None => Err(IndexError)
    case Some((b, e)) =>
      assert NoSpace(s[b..e]) by {
        forall k | 0 <= k < e - b ensures !IsSpace(s[b..e][k]) { assert s[b..e][k] == s[b + k]; }
      }
      Ok(s[b..e])
  }

  /** After whitespace, a whitespace-free token is the last token. */
  lemma LastTokenAfterSpace(prefix: string, token: string)
    requires token != [] && NoSpace(token)
    requires prefix == [] || IsSpace(prefix[|prefix| - 1])
    ensures LastToken(prefix + token) == Ok(token)
  {
    var s := prefix + token;
    assert IsLastToken(s, |prefix|, |s|) by {
      forall k | |prefix| <= k < |s| ensures !IsSpace(s[k]) {
        assert s[k] == token[k - |prefix|];
      }
      assert |prefix| > 0 ==> s[|prefix| - 1] == prefix[|prefix| - 1];
    }
    assert !AllSpace(s) by {
      assert s[|s| - 1] == token[|token| - 1];
    }
    var bounds := LastTokenBounds(s);
    assert bounds.Some?;
    LastTokenUnique(s, bounds.value.0, bounds.value.1, |prefix|, |s|);
    assert s[|prefix|..|s|] == token;
    assert LastToken(s) == Ok(s[bounds.value.0..bounds.value.1]);
  }

  /** Drops at most one leading "<" and then at most one trailing ">". */
  function StripBrackets(token: string): string {
    var t := if |token| > 0 && token[0] == '<' then token[1..] else token;
    if |t| > 0 && t[|t| - 1] == '>' then t[..|t| - 1] else t
  }

  /** Stripping keeps a whitespace-free token whitespace-free and never
      lengthens it. */
  lemma StripBracketsShrinks(token: string)
    requires NoSpace(token)
    ensures NoSpace(StripBrackets(token)) && |StripBrackets(token)| <= |token|
  {
    var t := if |token| > 0 && token[0] == '<' then token[1..] else token;
    assert NoSpace(t) by {
      if t != token {
        forall k | 0 <= k < |t| ensures !IsSpace(t[k]) { assert t[k] == token[k + 1]; }
      }
    }
    if |t| > 0 && t[|t| - 1] == '>' {
      var u := t[..|t| - 1];
      forall k | 0 <= k < |u| ensures !IsSpace(u[k]) { assert u[k] == t[k]; }
    }
  }

  /** `sanitize_email`: the last token with at most one "<" dropped from
      its front and at most one ">" from its back. */
  function SanitizeEmail(userEmail: string): (r: Result<string>)
    ensures r.Err? <==> AllSpace(userEmail)
    ensures r.Err? ==> r.error == IndexError
    ensures r.Ok? ==> NoSpace(r.value) && |r.value| <= |userEmail|
    ensures r.Ok? ==> IsSanitizedFrom(userEmail, r.value)
  {
    match LastToken(userEmail)
    case Err(e) => Err(e)
    case Ok(token) =>
      StripBracketsShrinks(token);
      Ok(StripBrackets(token))
  }

  /** A single whitespace-free token that does not start with "<" and does
      not end with ">" is returned unchanged. */
  lemma SanitizeKeepsBareAddress(token: string)
    requires token != [] && NoSpace(token) && token[0] != '<' && token[|token| - 1] != '>'
    ensures SanitizeEmail(token) == Ok(token)
  {
    assert LastToken(token) == Ok(token) by {
      assert [] + token == token;
      LastTokenAfterSpace([], token);
    }
    assert StripBrackets(token) == token;
  }

  /** The display name and the angle brackets are dropped, one bracket per
      side and no more. */
  lemma SanitizeStripsAngleBrackets(displayName: string, address: string)
    requires NoSpace(address)
    requires displayName == [] || IsSpace(displayName[|displayName| - 1])
    ensures SanitizeEmail(displayName + "<" + address + ">") == Ok(address)
  {
    var token := "<" + address + ">";
    assert NoSpace(token) by {
      forall k | 0 <= k < |token| ensures !IsSpace(token[k]) {
        if 0 < k < |token| - 1 { assert token[k] == address[k - 1]; }
      }
    }
    assert displayName + "<" + address + ">" == displayName + token;
    LastTokenAfterSpace(displayName, token);
    assert token[1..][..|token| - 2] == address;
  }

  /** Visible ASCII characters are not whitespace. */
  lemma PrintableHasNoSpace(s: string)
    requires forall k :: 0 <= k < |s| ==> '!' <= s[k] <= '~'
    ensures NoSpace(s)
  {
  }

  /** The documented example is a display name, a space and a bracketed
      whitespace-free address. */
  lemma ExampleShape()
    ensures "Jordan M " + "<" + "remailable@getneutrality.org" + ">" == "Jordan M <remailable@getneutrality.org>"
    ensures NoSpace("remailable@getneutrality.org")
    ensures IsSpace(' ')
  {
    PrintableHasNoSpace("remailable@getneutrality.org");
  }

  /** The documented example. */
  lemma SanitizeExample()
    ensures SanitizeEmail("Jordan M <remailable@getneutrality.org>") == Ok("remailable@getneutrality.org")
  {
    ExampleShape();
    SanitizeStripsAngleBrackets("Jordan M ", "remailable@getneutrality.org");
  }

  /** The two nested inputs are bracketed whitespace-free tokens. */
  lemma NestedShape()
    ensures [] + "<" + "<a>" + ">" == "<<a>>" && NoSpace("<a>")
    ensures [] + "<" + "a" + ">" == "<a>" && NoSpace("a")
  {
    PrintableHasNoSpace("<a>");
    PrintableHasNoSpace("a");
  }

  /** Only one bracket per side is stripped, so sanitising is not idempotent. */
  lemma SanitizeStripsOneBracketPerSide()
    ensures SanitizeEmail("<<a>>") == Ok("<a>")
    ensures SanitizeEmail("<a>") == Ok("a")
  {
    NestedShape();
    SanitizeStripsAngleBrackets([], "<a>");
    SanitizeStripsAngleBrackets([], "a");
  }
}
