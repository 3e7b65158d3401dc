# Remailable core: passwordless login challenge, address normalisation, inbound email classification

This project is a Dafny model of three pieces of sequential logic from Remailable, a service that forwards emailed documents to a reMarkable tablet.

1. **The passwordless-login challenge.** The identity provider calls three handlers in turn.
   - *Define* (`DefineAuthChallenge`) is a first-match decision table. It looks at the session history and at the challenge name in the response, then fails the login, issues tokens, or asks for the verification challenge. It assigns the response fields in place.
   - *Create* (`CreateAuthChallenge`) derives a code from the user's email address and the current second. The code is the MD5 hex digest of the JSON object `{"email_address": …, "timestamp": …}`. Create stores the code as the private answer and publishes the email address.
   - *Verify* (`VerifyAuthChallenge`) decodes the stored code. It sets `answerCorrect` to the conjunction of three checks: the submitted answer equals the code, the decoded email is the user's, and `timestamp + validity >= now`.
   - As written, Verify's decoder raises on every input (see "## Findings"), so the source never reaches that conjunction. The handler modelled here uses the corrected decoder. The decoder as written is modelled beside it.

   The event is a class: a read-only `Request` value and a `Response` object whose fields the handlers assign (`Cognito`).
2. **Address normalisation** (`Users.SanitizeEmail`). It takes the last whitespace-separated token and removes at most one `<` from its front and at most one `>` from its back.
3. **Inbound email** (`LambdaMain`).
   - `extract_files_from_email` classifies a message as UNSUBSCRIBE, REGISTER, SUCCESS or FAILURE. It collects PDF and EPUB attachments in walk order.
   - `extract_pdf`, the older extractor, returns the first PDF only. When there is no PDF it falls back to registration; its side effects are recorded as a log of actions.
   - The S3 key is split into the object path.

The library calls the handlers make are parameters of the model: JSON serialisation and parsing, UTF-8 encoding, MD5 and base64 decoding (`Foreign.Library`, `LambdaMain.Base64Decoder`). The only fact assumed about them is carried by their types: an MD5 digest is 16 bytes (section 3.5 of RFC 1321). The clock is a `real` parameter, and `Cognito.Seconds` truncates it as `int(time.time())` does. The configuration module is not part of this model. The challenge name and the validity duration are therefore an `AuthConfig` value passed to the handlers.

What the code does and does not do:
- The code is an unkeyed MD5 digest. The code has no keyed MAC, no constant-time comparison and no single-use tracking.
- Verify decodes the stored code. It does not recompute it.
- Verify checks the decoded email against `request.userAttributes.email`. A comment in the source names the public challenge parameter instead.
- Define consults the first history entry, `session[0]`.
- Define reads the challenge name from the response, not from the request.

## Model

| member | source | states |
|---|---|---|
| Cognito.Seconds | authentication/create_auth_challenge.py:27 | the clock reading truncated toward zero: within one second of it, on its side of zero |
| DefineAuthChallenge.Decide | authentication/define_auth_challenge.py:17-51 | the decision table flag by flag: tokens are issued iff the session is non-empty, the name matches and the first result is True; the login fails iff the session is non-empty and either the name differs or the first result is False; the two flags are never both true; the challenge name is kept in the three terminal branches and set to the verification challenge otherwise |
| DefineAuthChallenge.FirstResultOnly | authentication/define_auth_challenge.py:25-46 | two non-empty histories whose first entries have the same result give the same decision, so later entries and the first entry's name never matter |
| DefineAuthChallenge.EmptySessionAsksForChallenge | authentication/define_auth_challenge.py:47-51 | an empty history gives both flags false and the verification challenge, whatever name the response held |
| DefineAuthChallenge.MismatchFailsAfterPass | authentication/define_auth_challenge.py:17-24 | a wrong challenge name fails the login even when the first attempt passed, and keeps that name |
| DefineAuthChallenge.DefineAuthChallengeHandler | authentication/define_auth_challenge.py:9-53 | both flags are assigned as Decide says, the challenge name is written only in the new-session branch, no other response field changes, and the same event is returned |
| CreateAuthChallenge.HexDigest | authentication/create_auth_challenge.py:62 | a digest of n bytes becomes 2n lower-case hexadecimal characters |
| CreateAuthChallenge.UnhexHexDigest | authentication/create_auth_challenge.py:62 | reading the hex digest back as pairs gives the digest bytes |
| CreateAuthChallenge.HexDigestInjective | authentication/create_auth_challenge.py:62 | equal hex digests come from equal digests |
| CreateAuthChallenge.PreImageDeterminesInputs | authentication/create_auth_challenge.py:56-61 | the hashed object, with the key email_address first and then timestamp, is built from exactly the two inputs: equal objects mean equal inputs |
| CreateAuthChallenge.GenerateVerificationCode | authentication/create_auth_challenge.py:42-62 | the code is 32 lower-case hexadecimal characters, a function of the email address and the timestamp only |
| CreateAuthChallenge.CodesEqualIffDigestsEqual | authentication/create_auth_challenge.py:56-62 | two codes are equal exactly when the MD5 digests of the two encoded JSON texts are |
| CreateAuthChallenge.CreateAuthChallengeHandler | authentication/create_auth_challenge.py:25-39 | for the verification challenge, the private parameters become exactly {"answer": code of (email, current second)} and the public ones exactly {"email_address": email}, and the event is returned; for any other challenge, nothing is returned and the response is untouched |
| VerifyAuthChallenge.StoredAnswerIsCreatedCode | authentication/verify_auth_challenge.py:40-50 | for a request whose private parameters are those the create handler writes and whose answer is the generated code, the stored answer read back is that code, and the verdict is exactly "decoded email is the user's and timestamp + duration >= now" |
| VerifyAuthChallenge.DecodeAsWrittenNeverSucceeds | authentication/verify_auth_challenge.py:65-70 | the decoder as written raises on every input, whatever the JSON parser returns |
| VerifyAuthChallenge.Lookup | authentication/verify_auth_challenge.py:65 | a key is found iff some member of the parsed object has it, and what is found is the value of the last member with that key, as in the dict json.loads builds |
| VerifyAuthChallenge.DecodeObjectOfPreImage | authentication/verify_auth_challenge.py:65-70 | reading the two fields of the object that create serialises gives back its email address and timestamp |
| VerifyAuthChallenge.DecodeRoundTrip | authentication/verify_auth_challenge.py:65-70 | with a parser that inverts the serialiser, decoding the serialised pre-image recovers (email, timestamp) |
| VerifyAuthChallenge.ExpiryIsInclusive | authentication/verify_auth_challenge.py:49 | a correct answer is accepted at exactly timestamp + duration and rejected one second later |
| VerifyAuthChallenge.NoLowerTimeBound | authentication/verify_auth_challenge.py:49 | a timestamp at or after the current time passes the time check |
| VerifyAuthChallenge.EmailMismatchRejects | authentication/verify_auth_challenge.py:48 | a decoded email other than the user's attribute is rejected whatever the answer and the time |
| VerifyAuthChallenge.VerifyAuthChallengeHandler | authentication/verify_auth_challenge.py:40-55 | a missing answer or a failed decode raises before answerCorrect is written; otherwise answerCorrect is the three-way conjunction, no other response field changes, and the event is returned |
| Users.TrimmedEnd | users.py:73 | the end of the string once trailing whitespace is dropped: only whitespace after it, a non-whitespace character before it |
| Users.TokenStart | users.py:73 | the start of the whitespace-free run ending at a position: only non-whitespace after it, whitespace or the start before it |
| Users.LastTokenBounds | users.py:73 | none exactly when the string is all whitespace; otherwise bounds of the last token: non-empty, whitespace-free, preceded by whitespace or the start, followed only by whitespace |
| Users.LastTokenUnique | users.py:73 | a string has at most one last token: both bounds of any two last tokens agree |
| Users.LastToken | users.py:73 | `split()[-1]` fails exactly on all-whitespace input; otherwise it is the last token of the input: a slice that is non-empty and whitespace-free, preceded by whitespace or the start, and followed only by whitespace |
| Users.LastTokenAfterSpace | users.py:73 | a whitespace-free token after whitespace (or at the start) is the last token |
| Users.StripBracketsShrinks | users.py:74-77 | removing the brackets keeps a token whitespace-free and never lengthens it |
| Users.SanitizeEmail | users.py:68-78 | IndexError exactly when the input has no non-whitespace character; otherwise the result is the last token of the input with at most one leading "<" and at most one trailing ">" removed, so it contains no whitespace and is no longer than the input |
| Users.SanitizeKeepsBareAddress | users.py:73-78 | a single whitespace-free token without a leading "<" or a trailing ">" is returned unchanged |
| Users.SanitizeStripsAngleBrackets | users.py:73-78 | a display name followed by "<address>" gives the address |
| Users.SanitizeExample | users.py:69-71 | "Jordan M <remailable@getneutrality.org>" gives "remailable@getneutrality.org" |
| Users.SanitizeStripsOneBracketPerSide | users.py:74-77 | "<<a>>" gives "<a>" and "<a>" gives "a": one bracket per side, so sanitising is not idempotent |
| LambdaMain.FileOf | lambda_main.py:171-180 | a PDF or EPUB part yields a file exactly when its payload decodes; the file's bytes are the decoded payload; a non-empty filename is kept, and a missing or empty one becomes Remailable_Attachment.pdf or .epub according to its branch |
| LambdaMain.PdfBranchFirst | lambda_main.py:171-176 | a Content-Type containing the PDF marker takes the PDF branch even when it also names EPUB; a part is EPUB exactly when it has the EPUB marker and not the PDF one |
| LambdaMain.CollectFilesAppend | lambda_main.py:169-180 | walk order: the files of two consecutive runs of parts are those of the first run followed by those of the second |
| LambdaMain.NoFilesIffNoAttachments | lambda_main.py:169-195 | a walk that does not raise collects no file exactly when no part is a PDF or EPUB part |
| LambdaMain.CollectedFilesAreNamed | lambda_main.py:172-177 | every collected file has a non-empty name |
| LambdaMain.ParseMessage | lambda_main.py:139-195 | missing or empty Subject or From fails the assert; UNSUBSCRIBE iff the lower-cased subject contains "unsubscribe"; otherwise REGISTER iff the subject has 8 characters; both with no files whatever the attachments; SUCCESS iff files were collected; FILE_TOO_BIG never; From and Subject copied unchanged; past the subject checks, the result is an error exactly when the walk raises, and then it is that error |
| LambdaMain.ExtractFilesFromEmail | lambda_main.py:139-195 | the loop that appends files during the walk returns what ParseMessage specifies |
| LambdaMain.ExtractPdf | lambda_main.py:198-241 | the loop with break and for/else performs the actions and returns the result ExtractPdfSpec specifies |
| LambdaMain.FirstPdfAt | lambda_main.py:214-218 | the walk stops at the first PDF part when every earlier part is a non-PDF part with a Content-Type |
| LambdaMain.ExtractPdfReturnsFirstPdf | lambda_main.py:214-241 | extract_pdf returns the name and bytes of the first PDF part and performs no action; EPUB parts are passed over |
| LambdaMain.NoPdfPartFindsNothing | lambda_main.py:214-219 | without a PDF part the walk finds nothing, whatever EPUB parts there are |
| LambdaMain.ExtractPdfRegisters | lambda_main.py:219-231 | registration happens iff the subject is not an unsubscribe request, there is no PDF part and the subject has 8 characters; it is then the first and only registration, with (From, subject), and the result is (False, False) |
| LambdaMain.ExtractPdfRegistersCode | test_extract_pdf.py:51-66 | a message with subject "ABCD1234" and no PDF registers the sender with that code, sends the confirmation, and returns (False, False) |
| LambdaMain.ObjectPath | lambda_main.py:332 | the path is the suffix of the key after its last "/": it contains no "/", and it is the whole key when the key has no "/" |
| LambdaMain.ObjectPathOfJoin | lambda_main.py:332 | joining a prefix and a slash-free name with "/" and splitting again gives the name |

## Left out

- Network and database input/output is left out: SES, S3, DynamoDB and the reMarkable cloud (`send_email_if_enabled`, `load_email_from_s3`, `register_user`, `transfer_file_to_remarkable`, `renew_user_token`, `UserModel`, `UserLookerUpper`). In `extract_pdf` these calls appear only as entries in the action log.
- `handle_message_result` and `transfer_s3_path_to_remarkable` are left out. They only dispatch a status to those input/output calls.
- `upload_handler` is modelled only as its key-to-path split. Its try/except and its status codes wrap input/output.
- The internals of MD5, `json.dumps`/`json.loads`, UTF-8 encoding, `base64.b64decode` and `message.walk()` are left out, because they are library code. They are parameters of the model.
- A `get_filename()` that returns a filename is taken as given, so the model does not decode RFC 2231 or encoded words.
- `time.time()` is a parameter, because it reads the clock.
- `str.lower()` is modelled on ASCII letters only. Unicode case folding is not modelled.
- The configuration module and the event type module are not part of this model. Their two constants are an `AuthConfig` value.
- Python's dynamic types are narrowed:
  - A missing session is the empty sequence.
  - A first result that is neither True nor False is `None`.
  - Response fields are `Option` values that are None until they are set.
  - The decoded timestamp is an integer.
- `send_email` has an empty body in the source. It is modelled as the empty method `CreateAuthChallenge.SendEmail`, which has nothing to state.
- Logging through `plog` is left out.
- The numeric values of `MessageStatus` are left out.
- The Flask route, `provision.py` and the analytics table schema are left out.
- The event's request fields are read by attribute in the source, for example `privateChallengeParameters.answer`, and the create handler stores a plain dict there. The model assumes the event type exposes the dict's entries by attribute and reads the stored answer as a key lookup. The event type module is not part of this model, so this cannot be checked.
- VerifyAuthChallenge.DecodeObject: it rejects fields of the wrong JSON type with ValueError. This is part of the corrected decoder; the source would pass such values on.

## Findings

| source | as written | input that shows it | evidently intended | confidence | as-written member | corrected member |
|---|---|---|---|---|---|---|
| authentication/verify_auth_challenge.py:65-70 | the decoder asserts `hasattr` on the parsed JSON value and reads its fields as attributes. A parsed object is a dict, and its keys are not attributes, so the decoder always raises and the verify handler never sets answerCorrect | any code, for example the JSON text `{"email_address": "a@b.c", "timestamp": 1}` | read the two fields by key from the parsed object | high, not executed | VerifyAuthChallenge.DecodeAsWritten, shown by VerifyAuthChallenge.DecodeAsWrittenNeverSucceeds | VerifyAuthChallenge.DecodeVerificationCode, proved by VerifyAuthChallenge.DecodeRoundTrip; the verify handler uses it |

Even with the corrected decoder, the create handler stores an MD5 hex digest, not the JSON text. A parser given a digest does not return an object, so the decode still fails on the codes the create handler issues.
