# ResumeScanCore: keyword-overlap ATS score

A Dafny model of the one endpoint of ResumeScanCore, `POST /ats-score`, and of
the scorer behind it.

- **Scoring** (`scoring.dfy`, module `Scoring`) models `calculate_ats_score`.
  The tokens of the lower-cased resume text and job description, and the
  English stopword set, are parameters. A token is a keyword when it is
  alphabetic (`str.isalpha`) and not a stopword. The keywords of each side
  are kept in order (`Keywords`), collected into a set (`KeywordSet`), and
  intersected (`Matched`). The score is `|matched| / |distinct job keywords| * 100`,
  held exactly as a `real`. When the job description has no keyword, the
  source divides by zero. The model returns `Err("division by zero")` there,
  the message of Python's `ZeroDivisionError`.
- **Handler** (`handler.dfy`, module `Handler`) models `check_ats_score` and
  `extract_resume_text`. `Validate` runs the three form checks in the
  source's order, and the first failure answers 400. `ChooseExtractor` picks
  the PDF extractor for names ending in `.pdf` and the text decoder for every
  other name. `Handle` maps any failure of extraction or scoring, the
  zero-keyword case included, to 500 with the failure's message. Success
  answers 200 with the score.

Collaborators are function parameters of `Handle`:
- `pdfText` stands for saving the upload to `/tmp` under its own filename and running the PDF text extractor, so it sees the whole upload and its outcome may depend on the name;
- `utf8Decode` stands for `file.read().decode('utf-8')`;
- `tokenize` stands for `word_tokenize(text.lower())`;
- `stopWords` stands for `set(stopwords.words('english'))`.

## Model

| member | source | states |
|---|---|---|
| `Scoring.IsLetter` | app.py:46-47 | one character that `str.isalpha` accepts: an ASCII letter (the non-ASCII letters `str.isalpha` accepts are left out) |
| `Scoring.IsAlpha` | app.py:46-47 | `str.isalpha`: a non-empty token made only of letters |
| `Scoring.AlphaConcat` | app.py:46-47 | two alphabetic words concatenate to an alphabetic word, and any non-empty part of an alphabetic word is alphabetic |
| `Scoring.AlphaExamples` | app.py:46-47 | `python` and `Flask` are alphabetic; the empty token, `c++`, `python3` and `,` are not |
| `Scoring.IsKeyword` | app.py:46-47 | the comprehension's test: alphabetic and not a stopword |
| `Scoring.KeywordExclusions` | app.py:46-47 | a stopword or a non-alphabetic token is never a keyword, and a larger stopword set keeps no more keywords |
| `Scoring.Keywords` | app.py:46-47 | the kept tokens are never more than the input tokens, and a token is kept exactly when it occurs in the input and is alphabetic and not a stopword |
| `Scoring.KeywordsAppend` | app.py:46-47 | the filter works token by token and keeps the order: the keywords of `a + b` are the keywords of `a` followed by those of `b` |
| `Scoring.KeywordsSingleton` | app.py:46-47 | a single token is kept exactly when it is a keyword |
| `Scoring.KeywordsIdempotent` | app.py:46-47 | filtering the keyword sequence again changes nothing |
| `Scoring.KeywordSet` | app.py:50 | the distinct keywords are exactly the input tokens that are keywords |
| `Scoring.Matched` | app.py:50 | the matched set is a subset of both keyword sets, and holds exactly the keywords that occur in both token sequences |
| `Scoring.Score` | app.py:39-52 | the result is the division-by-zero error exactly when no job token is a keyword; otherwise the score lies in [0, 100] |
| `Scoring.SetScore` | app.py:50-51 | on keyword sets: an error exactly when the job set is empty; otherwise a score in [0, 100] such that the score times the size of the job set equals 100 times the size of the intersection |
| `Scoring.Percentage` | app.py:51 | the exact ratio times 100: `p * whole == 100 * part`, non-negative, at most 100 when the part fits in the whole, 100 exactly when they are equal, 0 exactly when the part is 0 |
| `Scoring.ScoreIsMatchedShare` | app.py:50-51 | a successful score times the number of distinct job keywords equals 100 times the number of matched keywords |
| `Scoring.SameTokensSameKeywords` | app.py:46-50 | token sequences with the same distinct tokens have the same keyword set |
| `Scoring.SameTokensSameScore` | app.py:50-51 | two resumes with the same distinct tokens and two job descriptions with the same distinct tokens get the same score, whatever their order or repetition |
| `Scoring.PermutationInvariant` | app.py:50-51 | permuting the tokens of either input leaves the score unchanged |
| `Scoring.DuplicateResumeToken` | app.py:46-51 | inserting a copy of a resume token at any position leaves the score unchanged |
| `Scoring.DuplicateJobToken` | app.py:47-51 | inserting a copy of a job token at any position leaves the score unchanged |
| `Scoring.FullMatch` | app.py:50-51 | the score is 100 if and only if every job keyword is also a resume keyword |
| `Scoring.IdenticalInputs` | app.py:42-51 | a token sequence scored against itself gives 100 when it has at least one keyword |
| `Scoring.NoMatch` | app.py:50-51 | the score is 0 if and only if the two keyword sets are disjoint |
| `Scoring.MoreResumeTokensNeverLower` | app.py:50-51 | adding tokens to the resume keeps the score defined and never lowers it |
| `Scoring.StopWordsOnlyExample` | app.py:47-51 | for every stopword list holding `the`, `and`, `of` and `a`, the job description "the and of a" yields the division-by-zero error |
| `Handler.Validate` | app.py:57-68 | the checks pass exactly when a resume part is present, its filename is non-empty and the job description is present and non-empty; a pass carries that file and text; a failure carries one of the three messages |
| `Handler.MissingResumeFirst` | app.py:57-58 | a missing resume part gives "No resume file provided" whatever the other fields hold |
| `Handler.EmptyFilenameSecond` | app.py:61-65 | with a resume part, an empty filename gives "No selected file" whatever the job description holds |
| `Handler.MissingJobDescriptionThird` | app.py:62-68 | with a named resume file, an absent or empty job description gives "No job description provided" |
| `Handler.EndsWith` | app.py:23 | `str.endswith`: true exactly when the string is some stem followed by the suffix |
| `Handler.ChooseExtractor` | app.py:23 | the PDF extractor is chosen exactly when the filename is some stem followed by `.pdf` |
| `Handler.PdfNamesGoToPdfExtractor` | app.py:23 | every name of the form stem + `.pdf` goes to the PDF extractor |
| `Handler.UpperCaseExtensionIsText` | app.py:23 | the suffix test is case-sensitive: `resume.PDF` is decoded as text |
| `Handler.ExtractResumeText` | app.py:22-37 | for a name that is some stem followed by `.pdf` the outcome is the PDF extractor's on the upload; for every other name it is the UTF-8 decoder's on the bytes; failures included |
| `Handler.Process` | app.py:71-73 | a score is produced exactly when extraction succeeds and the job description has a keyword, and it lies in [0, 100]; once extraction succeeds the outcome is the scorer's on the extracted text and the job description; an extraction failure is passed on with its message; any other failure is the division by zero |
| `Handler.Handle` | app.py:55-77 | the status is 200, 400 or 500; 400 exactly when a check fails, with that check's message; 200 carries a score in [0, 100]; after the checks pass, success is 200 with the score and any failure is 500 with its message |
| `Handler.RejectedRequestsAreNotProcessed` | app.py:57-71 | a request that fails a check gets the same answer whatever the collaborators would do |
| `Handler.ExtractionFailureIs500` | app.py:71-77 | a failing extraction is answered 500 with the extractor's message |
| `Handler.NoJobKeywordIs500` | app.py:71-77 | a valid request whose job description has no keyword is answered 500 "division by zero" |
| `Handler.SuccessCarriesScore` | app.py:71-74 | a 200 answer comes from a passed check and a successful extraction, and its score is the scorer's result on the extracted text and the job description |
| `Handler.FullScoreResponse` | app.py:50-74 | a 200 answer carries 100 exactly when every job keyword is also a keyword of the extracted resume text (exact ratio) |
| `Handler.SuccessCondition` | app.py:55-77 | the answer is 200 if and only if the checks pass, extraction succeeds and the job description has at least one keyword |

## Left out

- Flask setup, CORS, routing, JSON serialisation and the `PORT` setting (app.py:1-11, 79-81): framework plumbing.
- The NLTK data downloads at import time (app.py:13-20): network side effect.
- The tokenizer and the stopword list (app.py:41-43): foreign library. Token sequences and the stopword set are parameters. The tokenizer and the stopword lookup are assumed not to fail, although `stopwords.words('english')` raises when the start-up download failed and the source then answers 500; the "if" half of `Handler.SuccessCondition` relies on this, and so do the `Score` and "division by zero" outcomes of `Handler.Process` and the "division by zero" answer of `Handler.NoJobKeywordIs500`. When the lookup fails, the source answers 500 with the lookup's message instead.
- Case independence is not stated: `lower()` runs before an external tokenizer, so no claim about it can be made here.
- The PDF path: the temporary file under `/tmp`, `extract_text` and `os.remove` (app.py:25-33). This is filesystem I/O and a foreign call. Only the choice between the two extraction branches is modelled. The temporary-name collision between concurrent uploads is not modelled.
- The UTF-8 decode (app.py:36): a library call, passed in as a parameter.
- Scoring.IsLetter: accepts ASCII letters only, not the non-ASCII letters (such as `é` or `ß`) that `str.isalpha` accepts, since Unicode character classes are not modelled.
- Scoring.IsAlpha: inherits that limit, so a token with a non-ASCII letter is not alphabetic here although it is for `str.isalpha`.
- Scoring.Score: the score is the exact rational `100 * |matched| / |job set|`. The source computes this ratio in floating point and rounds it to two places (app.py:51-52); neither step is modelled, so the source returns 33.33 where the model returns 100/3. The "if and only if" of `Scoring.FullMatch` and `Scoring.NoMatch` holds for the exact ratio only: after rounding, a job set of 20001 keywords with one unmatched scores 100.0, and with one matched scores 0.0.
- The debug `print` of the error (app.py:76).
- A resume part whose filename is missing rather than empty is not modelled: uploads always carry a filename string here.
