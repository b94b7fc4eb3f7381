/**
 * The upload routes: a PDF, an image, a video link or plain text becomes text
 * that is handed to the question generator for the caller's user id. Each
 * handler sends exactly one response; a staged upload is deleted from the temp
 * directory once it has been handled, whatever the outcome.
 *
 * The question generator (`createQuestions`), the PDF loader, `imgToBase64`,
 * `imgToText` and the transcript service are oracles passed to the handlers.
 */
module UploadRoutes {
  import opened Wrappers
  import opened Text
  import opened Paths
  import opened Http
  import opened PdfExtract
  import Transcript

  const PdfExtension: string := ".pdf"

  /** What multer hands over: the staged file name and the client's original name. */
  datatype UploadedFile = UploadedFile(filename: string, originalname: string)

  /** A JSON body field: absent, or a string. */
  datatype Field = Absent | Str(s: string)

  /** The collaborators a handler invokes, in order. */
  datatype Call =
    | ExtractPdf(path: string)
    | EncodeImage(path: string)
    | DescribeImage(base64: string)
    | FetchTranscript(link: string)
    | CreateQuestions(userId: nat, text: string)

  /** The JSON the question generator returns, opaque to the routes. */
  type Questions = string
  type QuestionMaker = (nat, string) -> Result<Questions, string>

  /** Where multer stages an upload. */
  function TempPath(filename: string): string
  {
    "temp/" + filename
  }

  /** `path.extname(originalname).toLowerCase()`. */
  function FileExtension(originalname: string): (ext: string)
    ensures ext == [] || ext[0] == '.'
  {
    Lower(Extname(originalname))
  }

  /** The image whitelist: .png, .jpg, .jpeg, .webp and .avif. */
  predicate IsImageExtension(ext: string)
  {
    ext == ".png" || ext == ".jpg" || ext == ".jpeg" || ext == ".webp" || ext == ".avif"
  }

  /** A JavaScript-falsy body field: missing or the empty string. */
  predicate Falsy(f: Field)
  {
    f.Absent? || f.s == ""
  }

  /** An upload with a dot-free suffix is judged on that suffix, whatever its case. */
  lemma ExtensionOfUpload(stem: string, suffix: string)
    requires |stem| > 0
    requires forall i :: 0 <= i < |stem| ==> stem[i] != '/'
    requires forall i :: 0 <= i < |suffix| ==> suffix[i] != '/' && suffix[i] != '.'
    requires stem + "." + suffix != ".."
    ensures FileExtension(stem + "." + suffix) == "." + Lower(suffix)
  {
    ExtnameOfName(stem, suffix);
  }

  /** "Report.PDF" is accepted as a PDF. */
  lemma UpperCasePdfAccepted()
    ensures FileExtension("Report.PDF") == PdfExtension
  {
    assert "Report" + "." + "PDF" == "Report.PDF";
    assert LowerChar('P') == 'p' && LowerChar('D') == 'd' && LowerChar('F') == 'f';
    assert Lower("PDF") == "pdf";
    assert "." + "pdf" == PdfExtension;
    ExtensionOfUpload("Report", "PDF");
  }

  lemma GifExtension()
    ensures FileExtension("scan.gif") == ".gif"
  {
    assert "scan" + "." + "gif" == "scan.gif";
    assert "." + "gif" == ".gif";
    LowerOfLowercase("gif");
    ExtensionOfUpload("scan", "gif");
  }

  /** "scan.gif" is neither a PDF nor an accepted image. */
  lemma GifRejected()
    ensures FileExtension("scan.gif") != PdfExtension && !IsImageExtension(FileExtension("scan.gif"))
  {
    GifExtension();
    var ext := FileExtension("scan.gif");
    assert ext[1] == 'g' && ".pdf"[1] == 'p' && ".png"[1] == 'p' && ".jpg"[1] == 'j';
    assert |ext| == 4 && |".jpeg"| == 5 && |".webp"| == 5 && |".avif"| == 5;
  }

  class Uploads {
    /** The responses sent so far, in order. */
    var responses: seq<Response<Questions>>
    /** The files in the temp directory. */
    var tempFiles: set<string>
    /** The collaborator calls made so far, in order. */
    var calls: seq<Call>

    constructor (staged: set<string>)
      ensures responses == [] && tempFiles == staged && calls == []
    {
      responses := [];
      tempFiles := staged;
      calls := [];
    }

    /** Runs `createQuestions` on the extracted text and answers 200 with its result, or 500. */
    method Generate(userId: nat, text: string, createQuestions: QuestionMaker)
      modifies this
      ensures tempFiles == old(tempFiles)
      ensures calls == old(calls) + [CreateQuestions(userId, text)]
      ensures responses == old(responses) + [Answer(createQuestions(userId, text))]
    {
      calls := calls + [CreateQuestions(userId, text)];
      var result := createQuestions(userId, text);
      match result
      case Ok(questions) => responses := responses + [Response(200, Json(questions))];
      case Err(message) => responses := responses + [Error(500, message)];
    }

    /** `unlinkSync(filePath)`. */
    method Unlink(path: string)
      modifies this
      ensures tempFiles == old(tempFiles) - {path}
      ensures responses == old(responses) && calls == old(calls)
    {
      tempFiles := tempFiles - {path};
    }

    method UploadPdf(userId: nat, file: Option<UploadedFile>, loadPdf: string -> Result<seq<Page>, string>,
                     encode: Encoder, describe: Describer, createQuestions: QuestionMaker)
      modifies this
      ensures file.None? ==>
        responses == old(responses) + [Error(400, "No file uploaded")]
        && tempFiles == old(tempFiles) && calls == old(calls)
      ensures file.Some? ==> tempFiles == old(tempFiles) - {TempPath(file.value.filename)}
      ensures file.Some? && FileExtension(file.value.originalname) != PdfExtension ==>
        responses == old(responses) + [Error(400, "Upsupported file format")] && calls == old(calls)
      ensures file.Some? && FileExtension(file.value.originalname) == PdfExtension ==>
        var path := TempPath(file.value.filename);
        match loadPdf(path)
        case Err(message) =>
          responses == old(responses) + [Error(500, message)] && calls == old(calls) + [ExtractPdf(path)]
        case Ok(pages) =>
          var text := Extract(pages, 0, encode, describe);
          responses == old(responses) + [Answer(createQuestions(userId, text))]
          && calls == old(calls) + [ExtractPdf(path), CreateQuestions(userId, text)]
    {
      if file.None? {
        responses := responses + [Error(400, "No file uploaded")];
        return;
      }
      var filePath := TempPath(file.value.filename);
      var fileExt := FileExtension(file.value.originalname);
      if fileExt != PdfExtension {
        responses := responses + [Error(400, "Upsupported file format")];
      } else {
        ExtractPdfAndGenerate(userId, filePath, loadPdf, encode, describe, createQuestions);
      }
      Unlink(filePath);
    }

    /** The `.pdf` branch of the try block; a thrown error becomes 500. */
    method ExtractPdfAndGenerate(userId: nat, path: string, loadPdf: string -> Result<seq<Page>, string>,
                                 encode: Encoder, describe: Describer, createQuestions: QuestionMaker)
      modifies this
      ensures tempFiles == old(tempFiles)
      ensures match loadPdf(path)
        case Err(message) =>
          responses == old(responses) + [Error(500, message)] && calls == old(calls) + [ExtractPdf(path)]
        case Ok(pages) =>
          var text := Extract(pages, 0, encode, describe);
          responses == old(responses) + [Answer(createQuestions(userId, text))]
          && calls == old(calls) + [ExtractPdf(path), CreateQuestions(userId, text)]
    {
      calls := calls + [ExtractPdf(path)];
      var loaded := loadPdf(path);
      match loaded
      case Err(message) =>
        responses := responses + [Error(500, message)];
      case Ok(pages) =>
        var text := PdfToText(pages, encode, describe);
        Generate(userId, text, createQuestions);
    }

    method UploadImg(userId: nat, file: Option<UploadedFile>, imgToBase64: string -> Option<string>,
                     imgToText: string -> Result<string, string>, createQuestions: QuestionMaker)
      modifies this
      ensures file.None? ==>
        responses == old(responses) + [Error(400, "No file uploaded")]
        && tempFiles == old(tempFiles) && calls == old(calls)
      ensures file.Some? ==> tempFiles == old(tempFiles) - {TempPath(file.value.filename)}
      ensures file.Some? && !IsImageExtension(FileExtension(file.value.originalname)) ==>
        responses == old(responses) + [Error(400, "Upsupported file format")] && calls == old(calls)
      ensures file.Some? && IsImageExtension(FileExtension(file.value.originalname)) ==>
        var path := TempPath(file.value.filename);
        var payload := Base64Text(imgToBase64(path));
        match imgToText(payload)
        case Err(message) =>
          responses == old(responses) + [Error(500, message)]
          && calls == old(calls) + [EncodeImage(path), DescribeImage(payload)]
        case Ok(text) =>
          responses == old(responses) + [Answer(createQuestions(userId, text))]
          && calls == old(calls) + [EncodeImage(path), DescribeImage(payload), CreateQuestions(userId, text)]
    {
      if file.None? {
        responses := responses + [Error(400, "No file uploaded")];
        return;
      }
      var filePath := TempPath(file.value.filename);
      var fileExt := FileExtension(file.value.originalname);
      if !IsImageExtension(fileExt) {
        responses := responses + [Error(400, "Upsupported file format")];
      } else {
        DescribeImageAndGenerate(userId, filePath, imgToBase64, imgToText, createQuestions);
      }
      Unlink(filePath);
    }

    /** The accepted-image branch of the try block; a thrown error becomes 500. */
    method DescribeImageAndGenerate(userId: nat, path: string, imgToBase64: string -> Option<string>,
                                    imgToText: string -> Result<string, string>, createQuestions: QuestionMaker)
      modifies this
      ensures tempFiles == old(tempFiles)
      ensures
        var payload := Base64Text(imgToBase64(path));
        match imgToText(payload)
        case Err(message) =>
          responses == old(responses) + [Error(500, message)]
          && calls == old(calls) + [EncodeImage(path), DescribeImage(payload)]
        case Ok(text) =>
          responses == old(responses) + [Answer(createQuestions(userId, text))]
          && calls == old(calls) + [EncodeImage(path), DescribeImage(payload), CreateQuestions(userId, text)]
    {
      calls := calls + [EncodeImage(path)];
      var imageBase64 := imgToBase64(path);
      var payload := Base64Text(imageBase64);
      calls := calls + [DescribeImage(payload)];
      var described := imgToText(payload);
      match described
      case Err(message) =>
        responses := responses + [Error(500, message)];
      case Ok(text) =>
        Generate(userId, text, createQuestions);
    }

    method UploadLink(userId: nat, link: Field, fetch: (string, string) -> Result<seq<Transcript.Segment>, string>,
                      createQuestions: QuestionMaker)
      modifies this
      ensures tempFiles == old(tempFiles)
      ensures Falsy(link) ==> responses == old(responses) + [Error(400, "No link uploaded")] && calls == old(calls)
      ensures !Falsy(link) ==>
        match Transcript.LinkToText(link.s, fetch)
        case Err(message) =>
          responses == old(responses) + [Error(500, message)] && calls == old(calls) + [FetchTranscript(link.s)]
        case Ok(text) =>
          responses == old(responses) + [Answer(createQuestions(userId, text))]
          && calls == old(calls) + [FetchTranscript(link.s), CreateQuestions(userId, text)]
    {
      if Falsy(link) {
        responses := responses + [Error(400, "No link uploaded")];
        return;
      }
      calls := calls + [FetchTranscript(link.s)];
      var fetched := Transcript.LinkToText(link.s, fetch);
      match fetched
      case Err(message) =>
        responses := responses + [Error(500, message)];
      case Ok(text) =>
        Generate(userId, text, createQuestions);
    }

    method UploadText(userId: nat, text: Field, createQuestions: QuestionMaker)
      modifies this
      ensures tempFiles == old(tempFiles)
      ensures Falsy(text) ==> responses == old(responses) + [Error(400, "No text uploaded")] && calls == old(calls)
      ensures !Falsy(text) ==>
        responses == old(responses) + [Answer(createQuestions(userId, text.s))]
        && calls == old(calls) + [CreateQuestions(userId, text.s)]
    {
      if Falsy(text) {
        responses := responses + [Error(400, "No text uploaded")];
        return;
      }
      Generate(userId, text.s, createQuestions);
    }
  }

  /** The response to a `createQuestions` outcome: 200 with its result, or 500 with the thrown message. */
  function Answer(result: Result<Questions, string>): (r: Response<Questions>)
    ensures result.Ok? ==> r.status == 200 && r.body == Json(result.value)
    ensures result.Err? ==> r.status == 500 && r.body == Errors([result.error])
  {
    match result
    case Ok(questions) => Response(200, Json(questions))
    case Err(message) => Error(500, message)
  }

  /** The image payload as the template literal renders it: `imgToBase64` returns null on failure. */
  function Base64Text(encoded: Option<string>): string
  {
    match encoded
    case Some(s) => s
    case None => "null"
  }
}
