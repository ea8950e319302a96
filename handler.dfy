/** The `POST /ats-score` handler: three checks on the form in a fixed order,
    the first failure answering 400; then text extraction and scoring, any
    failure of which answers 500 with the failure's message; otherwise 200
    with the score.

    The collaborators are parameters: `pdfText` stands for saving the upload
    and running the PDF text extractor on it, `utf8Decode` for decoding the
    raw bytes, and `tokenize` for lower-casing a text and running the word
    tokenizer on it.
 */
module Handler {
  import opened Scoring

  datatype Option<T> = None | Some(value: T)

  /** An uploaded file part of the form: its declared filename and its bytes. */
  datatype Upload = Upload(filename: string, content: seq<bv8>)

  /** The parts of the request the handler looks at: the `resume` file part,
      if present, and the `jobDescription` form field, if present. */
  datatype Request = Request(resume: Option<Upload>, jobDescription: Option<string>)

  /** The JSON body of a response: `{"score": …}` or `{"error": …}`. */
  datatype Body = ScoreBody(score: real) | ErrorBody(error: string)

  datatype Response = Response(status: int, body: Body)

  const NoResumeFile: string := "No resume file provided"
  const NoSelectedFile: string := "No selected file"
  const NoJobDescription: string := "No job description provided"

  // ---------------------------------------------------------------------
  // Validation

  /** The outcome of the three checks: the file and the job description to
      process, or the message of the first check that failed. */
  datatype Check = Passed(file: Upload, jobDescription: string) | Rejected(message: string)

  /** The checks, in the source's order; the first failure wins. A job
      description that is absent or empty fails the third check. */
  function Validate(req: Request): (c: Check)
    ensures c.Passed? <==>
      req.resume.Some? && req.resume.value.filename != ""
      && req.jobDescription.Some? && req.jobDescription.value != ""
    ensures c.Passed? ==>
      c.file == req.resume.value && c.jobDescription == req.jobDescription.value
    ensures c.Rejected? ==> c.message in {NoResumeFile, NoSelectedFile, NoJobDescription}
  {
    if req.resume.None? then Rejected(NoResumeFile)
    else if req.resume.value.filename == "" then Rejected(NoSelectedFile)
    else if req.jobDescription.None? || req.jobDescription.value == "" then Rejected(NoJobDescription)
    else Passed(req.resume.value, req.jobDescription.value)
  }

  /** A missing resume part is reported whatever the other fields hold. */
  lemma MissingResumeFirst(req: Request)
    requires req.resume.None?
    ensures Validate(req) == Rejected(NoResumeFile)
  {
  }

  /** With a resume part present, an empty filename is reported whatever the
      job description holds. */
  lemma EmptyFilenameSecond(req: Request)
    requires req.resume.Some? && req.resume.value.filename == ""
    ensures Validate(req) == Rejected(NoSelectedFile)
  {
  }

  /** With a named resume file, an absent or empty job description is reported. */
  lemma MissingJobDescriptionThird(req: Request)
    requires req.resume.Some? && req.resume.value.filename != ""
    requires req.jobDescription.None? || req.jobDescription.value == ""
    ensures Validate(req) == Rejected(NoJobDescription)
  {
  }

  // ---------------------------------------------------------------------
  // Text extraction

  /** `str.endswith`: the string is some stem followed by the suffix. */
  predicate EndsWith(s: string, suffix: string)
    ensures EndsWith(s, suffix) <==> exists stem :: stem + suffix == s
  {
    SuffixOfConcat(suffix);
    if |suffix| <= |s| && s[|s| - |suffix|..] == suffix then
      assert s == s[..|s| - |suffix|] + suffix;
      true
    else
      false
  }

  /** The suffix of a concatenation, past the stem, is the second part. */
  lemma SuffixOfConcat(suffix: string)
    ensures forall stem: string {:trigger stem + suffix} :: (stem + suffix)[|stem|..] == suffix
  {
  }

  /** Which collaborator turns the upload into text. */
  datatype Extractor = PdfExtractor | PlainTextDecoder

  /** Files whose name ends in `.pdf` (in lower case) go to the PDF text
      extractor; every other file is decoded as text. */
  function ChooseExtractor(filename: string): (e: Extractor)
    ensures e == PdfExtractor <==>
      exists stem :: stem + ".pdf" == filename
  {
    if EndsWith(filename, ".pdf") then
      PdfExtractor
    else
      PlainTextDecoder
  }

  /** Any name made of a stem and `.pdf` goes to the PDF extractor. */
  lemma PdfNamesGoToPdfExtractor(stem: string)
    ensures ChooseExtractor(stem + ".pdf") == PdfExtractor
  {
  }

  /** The suffix test is case-sensitive: an upper-case extension is decoded as text. */
  lemma UpperCaseExtensionIsText()
    ensures ChooseExtractor("resume.PDF") == PlainTextDecoder
  {
    assert "resume.PDF"[6..] != ".pdf" by {
      assert "resume.PDF"[6..][1] == 'P';
    }
  }

  /** The text of the uploaded resume, from the collaborator the name selects. */
  function ExtractResumeText(file: Upload, pdfText: Upload -> Result<string>,
                             utf8Decode: seq<bv8> -> Result<string>): (r: Result<string>)
    ensures (exists stem :: stem + ".pdf" == file.filename) ==> r == pdfText(file)
    ensures (forall stem :: stem + ".pdf" != file.filename) ==> r == utf8Decode(file.content)
  {
    match ChooseExtractor(file.filename)
    case PdfExtractor => pdfText(file)
    case PlainTextDecoder => utf8Decode(file.content)
  }

  // ---------------------------------------------------------------------
  // The handler

  /** Extraction then scoring; the first failure is the outcome. */
  function Process(file: Upload, jobDescription: string,
                   pdfText: Upload -> Result<string>, utf8Decode: seq<bv8> -> Result<string>,
                   tokenize: string -> seq<string>, stopWords: set<string>): (r: Result<real>)
    ensures r.Ok? <==>
      ExtractResumeText(file, pdfText, utf8Decode).Ok?
      && exists w :: w in tokenize(jobDescription) && IsKeyword(w, stopWords)
    ensures r.Ok? ==> 0.0 <= r.value <= 100.0
    ensures ExtractResumeText(file, pdfText, utf8Decode).Err? ==>
      r == Err(ExtractResumeText(file, pdfText, utf8Decode).message)
    ensures ExtractResumeText(file, pdfText, utf8Decode).Ok? && r.Err? ==> r.message == DivisionByZero
    ensures ExtractResumeText(file, pdfText, utf8Decode).Ok? ==>
      r == Score(tokenize(ExtractResumeText(file, pdfText, utf8Decode).value), tokenize(jobDescription), stopWords)
  {
    var text := ExtractResumeText(file, pdfText, utf8Decode);
    if text.Err? then Err(text.message)
    else Score(tokenize(text.value), tokenize(jobDescription), stopWords)
  }

  /** `check_ats_score`: validation, then processing, with every processing
      failure answered as 500 carrying the failure's message. */
  function Handle(req: Request,
                  pdfText: Upload -> Result<string>, utf8Decode: seq<bv8> -> Result<string>,
                  tokenize: string -> seq<string>, stopWords: set<string>): (resp: Response)
    ensures resp.status in {200, 400, 500}
    ensures resp.status == 400 <==> Validate(req).Rejected?
    ensures resp.status == 400 ==> resp.body == ErrorBody(Validate(req).message)
    ensures resp.status == 200 ==> resp.body.ScoreBody? && 0.0 <= resp.body.score <= 100.0
    ensures resp.status == 500 ==> resp.body.ErrorBody?
    ensures Validate(req).Passed? ==>
      var outcome := Process(Validate(req).file, Validate(req).jobDescription, pdfText, utf8Decode, tokenize, stopWords);
      resp == if outcome.Ok? then Response(200, ScoreBody(outcome.value)) else Response(500, ErrorBody(outcome.message))
  {
    match Validate(req)
    case Rejected(message) => Response(400, ErrorBody(message))
    case Passed(file, jobDescription) =>
      match Process(file, jobDescription, pdfText, utf8Decode, tokenize, stopWords)
      case Ok(score) => Response(200, ScoreBody(score))
      case Err(message) => Response(500, ErrorBody(message))
  }

  /** A request that fails a check gets the same answer whatever the
      collaborators would do: nothing is processed. */
  lemma RejectedRequestsAreNotProcessed(req: Request,
      pdfText1: Upload -> Result<string>, utf8Decode1: seq<bv8> -> Result<string>,
      tokenize1: string -> seq<string>, stopWords1: set<string>,
      pdfText2: Upload -> Result<string>, utf8Decode2: seq<bv8> -> Result<string>,
      tokenize2: string -> seq<string>, stopWords2: set<string>)
    requires Validate(req).Rejected?
    ensures Handle(req, pdfText1, utf8Decode1, tokenize1, stopWords1)
         == Handle(req, pdfText2, utf8Decode2, tokenize2, stopWords2)
  {
  }

  /** A failing extraction is answered with 500 and its message. */
  lemma ExtractionFailureIs500(req: Request,
      pdfText: Upload -> Result<string>, utf8Decode: seq<bv8> -> Result<string>,
      tokenize: string -> seq<string>, stopWords: set<string>)
    requires Validate(req).Passed?
    requires ExtractResumeText(req.resume.value, pdfText, utf8Decode).Err?
    ensures Handle(req, pdfText, utf8Decode, tokenize, stopWords)
         == Response(500, ErrorBody(ExtractResumeText(req.resume.value, pdfText, utf8Decode).message))
  {
  }

  /** A job description without a keyword makes the score divide by zero;
      the handler answers 500 with that exception's message. */
  lemma NoJobKeywordIs500(req: Request,
      pdfText: Upload -> Result<string>, utf8Decode: seq<bv8> -> Result<string>,
      tokenize: string -> seq<string>, stopWords: set<string>)
    requires Validate(req).Passed?
    requires ExtractResumeText(req.resume.value, pdfText, utf8Decode).Ok?
    requires forall w :: w in tokenize(req.jobDescription.value) ==> !IsKeyword(w, stopWords)
    ensures Handle(req, pdfText, utf8Decode, tokenize, stopWords) == Response(500, ErrorBody(DivisionByZero))
  {
  }

  /** A 200 answer happens exactly when every check passes, the text is
      extracted and the job description has a keyword. */
  lemma SuccessCondition(req: Request,
      pdfText: Upload -> Result<string>, utf8Decode: seq<bv8> -> Result<string>,
      tokenize: string -> seq<string>, stopWords: set<string>)
    ensures Handle(req, pdfText, utf8Decode, tokenize, stopWords).status == 200 <==>
      && Validate(req).Passed?
      && ExtractResumeText(req.resume.value, pdfText, utf8Decode).Ok?
      && exists w :: w in tokenize(req.jobDescription.value) && IsKeyword(w, stopWords)
  {
  }

  /** The score of a 200 answer is the scorer's result on the extracted
      resume text and the job description. */
  lemma SuccessCarriesScore(req: Request,
      pdfText: Upload -> Result<string>, utf8Decode: seq<bv8> -> Result<string>,
      tokenize: string -> seq<string>, stopWords: set<string>)
    requires Handle(req, pdfText, utf8Decode, tokenize, stopWords).status == 200
    ensures Validate(req).Passed?
    ensures ExtractResumeText(req.resume.value, pdfText, utf8Decode).Ok?
    ensures Score(tokenize(ExtractResumeText(req.resume.value, pdfText, utf8Decode).value),
                  tokenize(req.jobDescription.value), stopWords)
         == Ok(Handle(req, pdfText, utf8Decode, tokenize, stopWords).body.score)
  {
  }

  /** A 200 answer carries 100 exactly when every job keyword is also a
      keyword of the extracted resume text. */
  lemma FullScoreResponse(req: Request,
      pdfText: Upload -> Result<string>, utf8Decode: seq<bv8> -> Result<string>,
      tokenize: string -> seq<string>, stopWords: set<string>)
    requires Handle(req, pdfText, utf8Decode, tokenize, stopWords).status == 200
    ensures ExtractResumeText(req.resume.value, pdfText, utf8Decode).Ok?
    ensures Handle(req, pdfText, utf8Decode, tokenize, stopWords).body.score == 100.0 <==>
      KeywordSet(tokenize(req.jobDescription.value), stopWords)
      <= KeywordSet(tokenize(ExtractResumeText(req.resume.value, pdfText, utf8Decode).value), stopWords)
  {
    SuccessCarriesScore(req, pdfText, utf8Decode, tokenize, stopWords);
    var text := ExtractResumeText(req.resume.value, pdfText, utf8Decode).value;
    FullMatch(tokenize(text), tokenize(req.jobDescription.value), stopWords);
  }
}
