/**
 * Inbound email handling: classifying a message by its subject and
 * attachments, the older first-PDF extractor with its registration
 * fallback, and the object path taken from an S3 key.
 */
module LambdaMain {
  import opened Wrappers

  type Bytes = seq<Byte>

  datatype MessageStatus = Success | Failure | Unsubscribe | Register | FileTooBig

  /** One MIME part as `message.walk()` yields it: its Content-Type header
      (None when absent), what `get_filename()` returns, and the raw payload. */
  datatype Part = Part(contentType: Option<string>, filename: Option<string>, payload: string)

  /** A message: its Subject and From headers and its parts in walk order. */
  datatype Message = Message(subject: Option<string>, sender: Option<string>, parts: seq<Part>)

  datatype FileTuple = FileTuple(filename: string, filebytes: Bytes)

  datatype ParseMessageResult = ParseMessageResult(
    sentFrom: string, subject: string, status: MessageStatus, extractedFiles: seq<FileTuple>)

  /** `base64.b64decode`: None when the payload is not valid base64. */
  type Base64Decoder = string -> Option<Bytes>

  const PdfMarker: string := "application/pdf;"
  const EpubMarker: string := "application/epub"
  const DefaultPdfName: string := "Remailable_Attachment.pdf"
  const DefaultEpubName: string := "Remailable_Attachment.epub"

  // ---------------------------------------------------------------- strings

  /** `str.lower()` on ASCII letters; other characters are left as they are. */
  function LowerChar(c: char): char {
    if 'A' <= c <= 'Z' then (c as int + 32) as char else c
  }

  function Lower(s: string): (r: string)
    ensures |r| == |s|
  {
    seq(|s|, i requires 0 <= i < |s| => LowerChar(s[i]))
  }

  predicate OccursAt(s: string, sub: string, i: int) {
    0 <= i <= |s| - |sub| && s[i..i + |sub|] == sub
  }

  /** Python's `sub in s`. */
  predicate Contains(s: string, sub: string) {
    exists i :: 0 <= i <= |s| - |sub| && OccursAt(s, sub, i)
  }

  predicate MentionsUnsubscribe(subject: string) {
    Contains(Lower(subject), "unsubscribe")
  }

  // ------------------------------------------------------------ attachments

  datatype Kind = Pdf | Epub | Other

  /** The branch a part takes in the walk: PDF first, then EPUB. Testing
      `in` against a missing header raises TypeError. */
  function KindOf(part: Part): Result<Kind> {
    match part.contentType
    case None => Err(TypeError)
    case Some(ct) => Ok(if Contains(ct, PdfMarker) then Pdf else if Contains(ct, EpubMarker) then Epub else Other)
  }

  /** `part.get_filename() or default`. */
  function FileNameOf(part: Part, default: string): string {
    if part.filename.Some? && part.filename.value != [] then part.filename.value else default
  }

  /** The file a PDF or EPUB part contributes, its name defaulted by its branch. */
  function FileOf(part: Part, kind: Kind, b64decode: Base64Decoder): (r: Result<FileTuple>)
    requires kind != Other
    ensures r.Ok? ==> r.value.filename != []
    ensures r.Ok? && (part.filename == None || part.filename == Some([])) ==>
      r.value.filename == (if kind == Pdf then DefaultPdfName else DefaultEpubName)
    ensures r.Ok? && part.filename.Some? && part.filename.value != [] ==> r.value.filename == part.filename.value
    ensures r.Ok? <==> b64decode(part.payload).Some?
    ensures r.Ok? ==> r.value.filebytes == b64decode(part.payload).value
  {
    var name := FileNameOf(part, if kind == Pdf then DefaultPdfName else DefaultEpubName);
    match b64decode(part.payload)
    case None => Err(ValueError)
    case Some(bytes) => Ok(FileTuple(name, bytes))
  }

  /** The PDF test comes first: a Content-Type naming both formats takes
      the PDF branch, and only a part without the PDF marker can be EPUB. */
  lemma PdfBranchFirst(part: Part)
    requires part.contentType.Some?
    ensures Contains(part.contentType.value, PdfMarker) ==> KindOf(part) == Ok(Pdf)
    ensures KindOf(part) == Ok(Epub) <==>
      !Contains(part.contentType.value, PdfMarker) && Contains(part.contentType.value, EpubMarker)
  {
  }

  /** The files of a walk, in walk order, one per PDF or EPUB part; the
      first exception in walk order ends the walk. */
  function CollectFiles(parts: seq<Part>, b64decode: Base64Decoder): Result<seq<FileTuple>> {
    if parts == [] then Ok([])
    else
      match KindOf(parts[0])
      case Err(e) => Err(e)
      case Ok(kind) =>
        if kind == Other then CollectFiles(parts[1..], b64decode)
        else
          match FileOf(parts[0], kind, b64decode)
          case Err(e) => Err(e)
          case Ok(file) => Prepend([file], CollectFiles(parts[1..], b64decode))
  }

  function Prepend(files: seq<FileTuple>, r: Result<seq<FileTuple>>): Result<seq<FileTuple>> {
    match r
    case Err(e) => Err(e)
    case Ok(rest) => Ok(files + rest)
  }

  lemma PrependAssociates(f1: seq<FileTuple>, f2: seq<FileTuple>, r: Result<seq<FileTuple>>)
    ensures Prepend(f1, Prepend(f2, r)) == Prepend(f1 + f2, r)
    ensures Prepend([], r) == r
  {
    if r.Ok? {
      assert f1 + (f2 + r.value) == (f1 + f2) + r.value;
      assert [] + r.value == r.value;
    }
  }

  /** Walk order: the files of two consecutive runs of parts are the files
      of the first run followed by the files of the second. */
  lemma {:induction false} CollectFilesAppend(p1: seq<Part>, p2: seq<Part>, b64decode: Base64Decoder)
    ensures CollectFiles(p1 + p2, b64decode) ==
      match CollectFiles(p1, b64decode)
      case Err(e) => Err(e)
      case Ok(files) => Prepend(files, CollectFiles(p2, b64decode))
  {
    if p1 == [] {
      assert p1 + p2 == p2;
      match CollectFiles(p2, b64decode)
      case Err(_) =>
      case Ok(files) => assert [] + files == files;
    } else {
      assert (p1 + p2)[0] == p1[0];
      assert (p1 + p2)[1..] == p1[1..] + p2;
      CollectFilesAppend(p1[1..], p2, b64decode);
      match CollectFiles(p1[1..], b64decode)
      case Err(_) =>
      case Ok(files) =>
        match CollectFiles(p2, b64decode)
        case Err(_) =>
        case Ok(more) =>
          forall file: FileTuple ensures [file] + (files + more) == ([file] + files) + more {
          }
    }
  }

  /** No files are collected exactly when no part is a PDF or EPUB part. */
  lemma {:induction false} NoFilesIffNoAttachments(parts: seq<Part>, b64decode: Base64Decoder)
    requires CollectFiles(parts, b64decode).Ok?
    ensures CollectFiles(parts, b64decode).value == [] <==> forall i :: 0 <= i < |parts| ==> KindOf(parts[i]) == Ok(Other)
  {
    if parts != [] {
      NoFilesIffNoAttachments(parts[1..], b64decode);
      assert forall i :: 1 <= i < |parts| ==> parts[i] == parts[1..][i - 1];
    }
  }

  /** Every collected file has a non-empty name. */
  lemma {:induction false} CollectedFilesAreNamed(parts: seq<Part>, b64decode: Base64Decoder)
    requires CollectFiles(parts, b64decode).Ok?
    ensures forall f :: f in CollectFiles(parts, b64decode).value ==> f.filename != []
  {
    if parts != [] {
      CollectedFilesAreNamed(parts[1..], b64decode);
    }
  }

  // ---------------------------------------------------------- classification

  predicate HeadersPresent(m: Message) {
    m.subject.Some? && m.subject.value != [] && m.sender.Some? && m.sender.value != []
  }

  /** `extract_files_from_email` as a specification: the subject decides
      first (unsubscribe, then an 8-character registration code), and only
      then do the attachments decide between success and failure. */
  function ParseMessage(m: Message, b64decode: Base64Decoder): (r: Result<ParseMessageResult>)
    ensures !HeadersPresent(m) ==> r == Err(AssertionError)
    ensures r.Ok? ==> HeadersPresent(m) && r.value.sentFrom == m.sender.value && r.value.subject == m.subject.value
    ensures r.Ok? ==> (r.value.status == Unsubscribe <==> MentionsUnsubscribe(m.subject.value))
    ensures r.Ok? ==> (r.value.status == Register <==> !MentionsUnsubscribe(m.subject.value) && |m.subject.value| == 8)
    ensures r.Ok? ==> (r.value.status == Success <==> r.value.extractedFiles != [])
    ensures r.Ok? ==> r.value.status != FileTooBig
    ensures HeadersPresent(m) && (MentionsUnsubscribe(m.subject.value) || |m.subject.value| == 8) ==>
      r.Ok? && r.value.extractedFiles == []
    ensures r.Ok? && r.value.status in {Success, Failure} ==> CollectFiles(m.parts, b64decode) == Ok(r.value.extractedFiles)
    ensures HeadersPresent(m) && !MentionsUnsubscribe(m.subject.value) && |m.subject.value| != 8 ==>
      (r.Ok? <==> CollectFiles(m.parts, b64decode).Ok?) &&
      (r.Err? ==> r == Err(CollectFiles(m.parts, b64decode).error))
  {
    if !HeadersPresent(m) then Err(AssertionError)
    else
      var subject, sentFrom := m.subject.value, m.sender.value;
      if MentionsUnsubscribe(subject) then Ok(ParseMessageResult(sentFrom, subject, Unsubscribe, []))
      else if |subject| == 8 then Ok(ParseMessageResult(sentFrom, subject, Register, []))
      else
        match CollectFiles(m.parts, b64decode)
        case Err(e) => Err(e)
        case Ok(files) => Ok(ParseMessageResult(sentFrom, subject, if files != [] then Success else Failure, files))
  }

  /** `extract_files_from_email`: the walk appends to a list of files. */
  method ExtractFilesFromEmail(m: Message, b64decode: Base64Decoder) returns (r: Result<ParseMessageResult>)
    ensures r == ParseMessage(m, b64decode)
  {
    if !HeadersPresent(m) {
      return Err(AssertionError);
    }
    var subject, sentFrom := m.subject.value, m.sender.value;
    if MentionsUnsubscribe(subject) {
      return Ok(ParseMessageResult(sentFrom, subject, Unsubscribe, []));
    }
    if |subject| == 8 {
      return Ok(ParseMessageResult(sentFrom, subject, Register, []));
    }
    var files: seq<FileTuple> := [];
    var i := 0;
    assert m.parts[i..] == m.parts;
    PrependAssociates([], [], CollectFiles(m.parts, b64decode));
    while i < |m.parts|
      invariant 0 <= i <= |m.parts|
      invariant CollectFiles(m.parts, b64decode) == Prepend(files, CollectFiles(m.parts[i..], b64decode))
    {
      var part := m.parts[i];
      assert m.parts[i..][0] == part && m.parts[i..][1..] == m.parts[i + 1..];
      var kind := KindOf(part);
      if kind.Err? {
        return Err(kind.error);
      }
      if kind.value != Other {
        var file := FileOf(part, kind.value, b64decode);
        if file.Err? {
          return Err(file.error);
        }
        PrependAssociates(files, [file.value], CollectFiles(m.parts[i + 1..], b64decode));
        files := files + [file.value];
      }
      i := i + 1;
    }
    assert m.parts[i..] == [] && files + [] == files;
    if files != [] {
      r := Ok(ParseMessageResult(sentFrom, subject, Success, files));
    } else {
      r := Ok(ParseMessageResult(sentFrom, subject, Failure, files));
    }
  }

  // ------------------------------------------------------------- extract_pdf

  /** The calls `extract_pdf` makes on the outside world, in order. */
  datatype Action =
    | DeleteUser(user: Option<string>)
    | RegisterUser(user: Option<string>, code: string)
    | SendEmail(to: Option<string>, subject: string, message: string)

  /** `(False, False)`, or the name and bytes of the PDF found. */
  datatype PdfResult = NoPdf | PdfFile(filename: string, filebytes: Bytes)

  const VerifiedSubject: string := "Your email address is now verified!"
  const VerifiedMessage: string := "Your verification succeeded, and you can now email documents to your reMarkable tablet. Try responding to this email with a PDF attachment!"
  const ProblemSubject: string := "A problem with your document :("
  const ProblemMessage: string := "Unfortunately, a problem occurred while processing your email. Remailable only supports PDF attachments for now. If you're still encountering issues, please get in touch with Jordan at remailable@matelsky.com or on Twitter at @j6m8."

  /** The first PDF part of the walk, or None when the walk ends without
      one; EPUB parts are passed over like any other part. */
  function FirstPdf(parts: seq<Part>, b64decode: Base64Decoder): Result<Option<FileTuple>> {
    if parts == [] then Ok(None)
    else
      match KindOf(parts[0])
      case Err(e) => Err(e)
      case Ok(kind) =>
        if kind != Pdf then FirstPdf(parts[1..], b64decode)
        else
          match FileOf(parts[0], Pdf, b64decode)
          case Err(e) => Err(e)
          case Ok(file) => Ok(Some(file))
  }

  /** `extract_pdf` as a specification: the actions it performs and what it
      returns or raises. */
  function ExtractPdfSpec(m: Message, b64decode: Base64Decoder): (seq<Action>, Result<PdfResult>) {
    if m.subject.None? then ([], Err(AttributeError))
    else if MentionsUnsubscribe(m.subject.value) then ([DeleteUser(m.sender)], Ok(NoPdf))
    else
      match FirstPdf(m.parts, b64decode)
      case Err(e) => ([], Err(e))
      case Ok(Some(file)) => ([], Ok(PdfFile(file.filename, file.filebytes)))
      case Ok(None) =>
        var code := m.subject.value;
        if code != [] && |code| == 8 then
          ([RegisterUser(m.sender, code), SendEmail(m.sender, VerifiedSubject, VerifiedMessage)], Ok(NoPdf))
        else
          ([SendEmail(m.sender, ProblemSubject, ProblemMessage)], Ok(NoPdf))
  }

  /** `extract_pdf`: the walk stops at the first PDF part; when it runs out
      without one, the subject is tried as a registration code. */
  method ExtractPdf(m: Message, b64decode: Base64Decoder) returns (actions: seq<Action>, r: Result<PdfResult>)
    ensures (actions, r) == ExtractPdfSpec(m, b64decode)
  {
    if m.subject.None? {
      return [], Err(AttributeError);
    }
    var subject := m.subject.value;
    if MentionsUnsubscribe(subject) {
      return [DeleteUser(m.sender)], Ok(NoPdf);
    }
    var found: Option<FileTuple> := None;
    var i := 0;
    while i < |m.parts|
      invariant 0 <= i <= |m.parts|
      invariant FirstPdf(m.parts, b64decode) == FirstPdf(m.parts[i..], b64decode)
    {
      var part := m.parts[i];
      assert m.parts[i..][0] == part && m.parts[i..][1..] == m.parts[i + 1..];
      var kind := KindOf(part);
      if kind.Err? {
        return [], Err(kind.error);
      }
      if kind.value == Pdf {
        var file := FileOf(part, Pdf, b64decode);
        if file.Err? {
          return [], Err(file.error);
        }
        found := Some(file.value);
        break;
      }
      i := i + 1;
    }
    if found.Some? {
      actions, r := [], Ok(PdfFile(found.value.filename, found.value.filebytes));
    } else {
      var code := subject;
      if code != [] && |code| == 8 {
        actions := [RegisterUser(m.sender, code), SendEmail(m.sender, VerifiedSubject, VerifiedMessage)];
      } else {
        actions := [SendEmail(m.sender, ProblemSubject, ProblemMessage)];
      }
      r := Ok(NoPdf);
    }
  }

  /** The PDF returned is the first PDF part of the walk: every part
      before it has a Content-Type and is not a PDF part (EPUB parts
      included), and nothing is registered or sent. */
  lemma {:induction false} ExtractPdfReturnsFirstPdf(m: Message, b64decode: Base64Decoder, j: nat)
    requires m.subject.Some? && !MentionsUnsubscribe(m.subject.value)
    requires j < |m.parts| && KindOf(m.parts[j]) == Ok(Pdf) && b64decode(m.parts[j].payload).Some?
    requires forall i :: 0 <= i < j ==> KindOf(m.parts[i]).Ok? && KindOf(m.parts[i]).value != Pdf
    ensures ExtractPdfSpec(m, b64decode) ==
      ([], Ok(PdfFile(FileNameOf(m.parts[j], DefaultPdfName), b64decode(m.parts[j].payload).value)))
  {
    FirstPdfAt(m.parts, b64decode, j);
  }

  lemma {:induction false} FirstPdfAt(parts: seq<Part>, b64decode: Base64Decoder, j: nat)
    requires j < |parts| && KindOf(parts[j]) == Ok(Pdf)
    requires forall i :: 0 <= i < j ==> KindOf(parts[i]).Ok? && KindOf(parts[i]).value != Pdf
    ensures FirstPdf(parts, b64decode) ==
      match FileOf(parts[j], Pdf, b64decode)
      case Err(e) => Err(e)
      case Ok(file) => Ok(Some(file))
  {
    if j > 0 {
      assert parts[1..][j - 1] == parts[j];
      FirstPdfAt(parts[1..], b64decode, j - 1);
    }
  }

  /** Without a PDF part the walk finds nothing, whatever EPUB parts there are. */
  lemma {:induction false} NoPdfPartFindsNothing(parts: seq<Part>, b64decode: Base64Decoder)
    requires forall i :: 0 <= i < |parts| ==> KindOf(parts[i]).Ok? && KindOf(parts[i]).value != Pdf
    ensures FirstPdf(parts, b64decode) == Ok(None)
  {
    if parts != [] {
      assert forall i :: 0 <= i < |parts| - 1 ==> parts[1..][i] == parts[i + 1];
      NoPdfPartFindsNothing(parts[1..], b64decode);
    }
  }

  /** Registration happens only when the subject is not an unsubscribe
      request, the walk has no PDF part, and the subject is 8 characters
      long; it is then called once, first, with the From header and the
      subject, and the result is `(False, False)`. */
  lemma ExtractPdfRegisters(m: Message, b64decode: Base64Decoder)
    ensures var (actions, r) := ExtractPdfSpec(m, b64decode);
      (exists k :: 0 <= k < |actions| && actions[k].RegisterUser?) <==>
        m.subject.Some? && !MentionsUnsubscribe(m.subject.value) &&
        FirstPdf(m.parts, b64decode) == Ok(None) && |m.subject.value| == 8
    ensures var (actions, r) := ExtractPdfSpec(m, b64decode);
      (exists k :: 0 <= k < |actions| && actions[k].RegisterUser?) ==>
        actions[0] == RegisterUser(m.sender, m.subject.value) &&
        (forall k :: 1 <= k < |actions| ==> !actions[k].RegisterUser?) &&
        r == Ok(NoPdf)
  {
    var (actions, r) := ExtractPdfSpec(m, b64decode);
    if m.subject.Some? && !MentionsUnsubscribe(m.subject.value) &&
       FirstPdf(m.parts, b64decode) == Ok(None) && |m.subject.value| == 8 {
      assert actions[0].RegisterUser?;
    } else {
      assert forall k :: 0 <= k < |actions| ==> !actions[k].RegisterUser?;
    }
  }

  /** A message whose subject is the 8-character code "ABCD1234" and which
      has no PDF part registers the sender with that code, sends the
      confirmation, and returns `(False, False)`. */
  lemma ExtractPdfRegistersCode(sender: string, parts: seq<Part>, b64decode: Base64Decoder)
    requires forall i :: 0 <= i < |parts| ==> KindOf(parts[i]).Ok? && KindOf(parts[i]).value != Pdf
    ensures ExtractPdfSpec(Message(Some("ABCD1234"), Some(sender), parts), b64decode) ==
      ([RegisterUser(Some(sender), "ABCD1234"), SendEmail(Some(sender), VerifiedSubject, VerifiedMessage)], Ok(NoPdf))
  {
    NoPdfPartFindsNothing(parts, b64decode);
    assert !MentionsUnsubscribe("ABCD1234");
  }

  // ----------------------------------------------------------- upload_handler

  /** `key.split("/")[-1]`: the text after the last "/" of an S3 key, or
      the whole key when it has no "/". */
  function ObjectPath(key: string): (path: string)
    ensures |path| <= |key| && path == key[|key| - |path|..]
    ensures forall i :: 0 <= i < |path| ==> path[i] != '/'
    ensures |path| < |key| ==> key[|key| - |path| - 1] == '/'
  {
    if key == [] || key[|key| - 1] == '/' then []
    else ObjectPath(key[..|key| - 1]) + [key[|key| - 1]]
  }

  /** Joining a prefix and a name with "/" and splitting again gives the name. */
  lemma {:induction false} ObjectPathOfJoin(prefix: string, name: string)
    requires forall i :: 0 <= i < |name| ==> name[i] != '/'
    ensures ObjectPath(prefix + "/" + name) == name
  {
    var key := prefix + "/" + name;
    if name != [] {
      var init := name[..|name| - 1];
      assert key[..|key| - 1] == prefix + "/" + init;
      ObjectPathOfJoin(prefix, init);
      assert init + [name[|name| - 1]] == name;
    }
  }
}
