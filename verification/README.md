# Ed Discussion scraper and PDF ingester, modelled in Dafny

The repository holds two scripts that harvest threads from an Ed Discussion
course, plus a third script that turns course PDFs into documents for a
retrieval chatbot:

- `reverse_api.py` calls the REST API directly.
- `ed_scraper.py` logs in through a browser and reuses the session token.

This project models the core logic of the three scripts.

- **Thread listing** (`thread_links.dfy`, `paging.dfy`). The offset/limit loop
  of `get_all_thread_links` asks for pages of 30 threads at offsets 0, 30, 60, …
  It stops on an empty page, a short page, or an exception, and returns the
  links gathered so far. Each link is
  `https://edstem.org/us/courses/{course}/discussion/{id}`, and `main` reads the
  thread id back with `split('/')[-1]`. The upstream service is a value
  `Server(threads, failAt)`:
  - `threads` holds the course's thread ids, newest first;
  - `failAt` is the number of the request that raises, if any.
- **Thread extraction** (`thread_extract.dfy`). `extract_thread_data` flattens
  a thread detail response into a record. Each answer gets a copy of the
  thread-level `is_staff_answered` flag. The collecting loop of `main` fetches
  every link once, in order, and keeps the fetches that returned data.
- **The two drivers**:
  - `reverse_api.dfy` covers the direct script's gates: credentials present,
    login type `password`, token present, links found.
  - `ed_scraper.dfy` covers the browser script. Every API call checks the
    session token first and returns `None` without a request when it is
    missing.
- **PDF text** (`pdf_text.dfy`).
  - `clean_content` collapses whitespace runs, removes control characters,
    and trims.
  - `determine_assignment_type` classifies a file by the first keyword group
    its lower-cased name contains.
- **PDF documents** (`pdf_ingest.dfy`).
  - `process_pdf` joins the non-empty cleaned pages with a blank line and
    derives the metadata from the file name.
  - The loop of `main` processes the entries whose name ends in `.pdf` in any
    letter case.

Effects are inputs:

- A login endpoint reply is `Option<map<string,string>>`; `None` means the
  request raised.
- The thread detail endpoint is a function from (token, thread id) to
  `Option<RawThread>`.
- PDF page texts, the per-file read and the clock are parameters.

The listing loop ends only on an empty or short page, so T threads take
floor(T/30)+1 requests when nothing fails: 35 take two, 60 take three (the
last one returns an empty page), and none take one.
`Paging.RequestCountExamples` records these.

## Model

| member | source | states |
|---|---|---|
| ThreadLinks.DecimalRoundTrip | reverse_api.py:132 | reading back the decimal text of a thread id gives the id |
| ThreadLinks.DecimalInjective | reverse_api.py:132 | distinct thread ids render as distinct texts |
| ThreadLinks.LastSegment | reverse_api.py:223 | `split('/')[-1]` never contains a '/' |
| ThreadLinks.LastSegmentAfterSlash | reverse_api.py:223 | the last segment of `prefix + "/" + seg` is `seg` when `seg` has no '/' |
| ThreadLinks.ThreadIdFromLink | reverse_api.py:132 | the id `main` takes from a built link (line 223) is the id the link was built from |
| ThreadLinks.LinkIdsDistinct | ed_scraper.py:60 | links of distinct threads yield distinct ids (read back at line 234), so no thread is fetched in place of another |
| Paging.GetAllThreadLinks | reverse_api.py:105-147 | the requests go to offsets 0, 30, 60, … and their number is `RequestCount`; the links are those of the first `CollectedCount` thread ids, in order; with no failure, every thread is listed after floor(T/30)+1 requests |
| Paging.FailureEnds | reverse_api.py:142-144 | when request k raises after k full pages, k + 1 requests were made and 30·k threads collected |
| Paging.ShortPageEnds | reverse_api.py:127-137 | when request k returns a short or empty page without raising, it is the last of k + 1 requests and every thread was collected |
| Paging.PartialResultIsPrefix | reverse_api.py:142-144 | a failing request only cuts the result short: it is a prefix of the full listing, which covers every thread |
| Paging.RequestCountExamples | reverse_api.py:136-139 | with no failure, 35 threads take 2 requests, 60 take 3, none takes 1 |
| ThreadExtract.ExtractThreadData | reverse_api.py:169-195 | every top-level field is copied, `document` is renamed to content, and the answers are copied one for one, in order, each with the thread's staff flag; a missing `answers` key gives none |
| ThreadExtract.ExtractionIsUnique | ed_scraper.py:189-223 | extraction is determined by the response: two extractions of one thread are equal |
| ThreadExtract.CollectThreadData | reverse_api.py:222-228 | each link is fetched once, in order, by its last segment; the records are the extractions of the successful fetches, in order |
| ThreadExtract.FetchedAtMostLinks | ed_scraper.py:233-239 | at most one record per link |
| ThreadExtract.FetchedIsOrderedSelection | ed_scraper.py:233-239 | the records come from a strictly increasing selection of links that includes every link whose fetch succeeded |
| ThreadExtract.FetchedAllSucceed | reverse_api.py:222-228 | when every fetch succeeds, there is one record per link, in link order |
| ReverseApi.RunDirect | reverse_api.py:197-236 | login type is checked iff both credentials are non-empty; the token is requested iff the login type is `password`; pages are listed iff a token came back; each way of ending (missing credentials, not a password login, no token, no links, processed) happens exactly when its gate is the first to fail; the processed threads are the extractions of the successful fetches |
| EdScraper.GetAllThreadLinksWithToken | ed_scraper.py:16-75 | without a token: `None` and no request; with one: the listing loop's result and requests |
| EdScraper.GetThreadData | ed_scraper.py:151-187 | without a token it returns `None` and sends no request (lines 169-171); with one it sends exactly one detail request, for the given id, and returns its result; either way the result is the gated fetch `Gated` |
| EdScraper.CollectWithSession | ed_scraper.py:233-239 | the records are the extractions of the successful gated fetches, in link order; with a token one detail request goes out per link, in order, by its last segment; without one no request is sent and nothing is processed |
| EdScraper.GatedFetched | ed_scraper.py:164-171 | with a token the per-call check drops no thread; without one every thread is dropped |
| EdScraper.RunScraper | ed_scraper.py:225-248 | nothing is processed unless the login succeeded, a token is present and links were found (lines 138-140); without a token no listing or detail request is sent; otherwise one detail request goes out per collected link and the records are the extractions of the successful fetches |
| PdfText.Strip | pdf_processor.py:32 | `strip()` leaves no whitespace at either end |
| PdfText.StripKeeps | pdf_processor.py:32 | `strip()` keeps the absence of control characters, of non-space whitespace and of doubled whitespace |
| PdfText.CollapseSpaces | pdf_processor.py:27 | the collapse of `\s+` to ' ' is empty iff its input is, and starts with whitespace iff its input does |
| PdfText.CollapseKeeps | pdf_processor.py:27 | after the collapse the only whitespace is single plain spaces; a control character survives only where it was whitespace-free in the input, so none survives when every control character was whitespace |
| PdfText.StripControlKeeps | pdf_processor.py:30 | no control character remains, plain spacing is kept, and text that has no control character is unchanged |
| PdfText.CleanContent | pdf_processor.py:20-36 | `None` and "" clean to ""; the result has no whitespace at either end |
| PdfText.CleanShape | pdf_processor.py:27-32 | the cleaned text has no control characters, no outer whitespace, and no whitespace but the plain space |
| PdfText.CleanKeepsVisibleText | pdf_processor.py:20-36 | cleaning neither loses nor reorders any visible character |
| PdfText.CleanSingleSpaced | pdf_processor.py:27-32 | with no control character outside whitespace, the result never holds two spaces in a row |
| PdfText.CollapseSingleSpaced | pdf_processor.py:27 | text whose only whitespace is single spaces is left unchanged by the collapse |
| PdfText.CleanIdempotent | pdf_processor.py:20-36 | with no control character outside whitespace, cleaning twice equals cleaning once |
| PdfText.CleanFixedPoint | pdf_processor.py:20-36 | text that is already trimmed, single-spaced with plain spaces and free of control characters cleans to itself |
| PdfText.StrayControlBreaksIdempotence | pdf_processor.py:27-30 | for any visible a, b and any control character x that is not whitespace, "a x b" (with spaces) cleans to "a  b" with two spaces, because the control character is removed after the collapse; cleaning that again gives "a b" |
| PdfText.StrayControlExample | pdf_processor.py:27-30 | "a \x01 b" cleans to "a  b", and cleaning that again gives "a b" |
| PdfText.ContainsWitness | pdf_processor.py:41 | when Python's substring `in` holds, it names a position where the word occurs |
| PdfText.OccursContains | pdf_processor.py:41 | an occurrence at any position makes the substring `in` hold |
| PdfText.ContainsIff | pdf_processor.py:41 | Python's substring `in` holds iff the word occurs at some position |
| PdfText.DetermineAssignmentType | pdf_processor.py:38-48 | homework iff the lower-cased name contains "homework" or "hw"; project iff not and it contains "project"; syllabus iff neither and it contains "syllabus"; otherwise other |
| PdfText.LowerIdempotent | pdf_processor.py:40 | lower-casing twice equals lower-casing once |
| PdfText.AssignmentTypeIgnoresCase | pdf_processor.py:38-48 | names equal up to case get the same type, and so does the lower-cased name |
| PdfText.HomeworkOutranksProject | pdf_processor.py:41-44 | "HW_project.pdf" is homework, not project |
| PdfIngest.SplitJoin | pdf_processor.py:72 | splitting the joined content on "\n\n" gives back the cleaned pages when none of them is empty or holds a newline |
| PdfIngest.CleanedHaveNoNewline | pdf_processor.py:63 | a cleaned page never holds a newline |
| PdfIngest.NonEmptyNone | pdf_processor.py:64-68 | no page is kept iff every cleaned page is empty |
| PdfIngest.CleanedPages | pdf_processor.py:61-65 | every page kept is non-empty and has no newline |
| PdfIngest.LastDot | pdf_processor.py:55 | the position found holds the last '.' of the name; `None` only when there is no '.' |
| PdfIngest.Stem | pdf_processor.py:55 | the base name is a prefix of the file name |
| PdfIngest.StemDropsExtension | pdf_processor.py:55 | `root.ext` has base name `root` when `ext` has no '.' and `root` is not all dots |
| PdfIngest.DotFileKeepsName | pdf_processor.py:55 | ".pdf" keeps its whole name as base name |
| PdfIngest.CollectPageText | pdf_processor.py:58-65 | the kept contents are the non-empty cleaned pages, in page order; none is kept iff every page cleans to "" |
| PdfIngest.ProcessPdf | pdf_processor.py:50-85 | `None` iff every page cleans to ""; otherwise the content splits back on "\n\n" into the cleaned pages, the id and title are the file name without extension, and the page count is the number of pages read |
| PdfIngest.ProcessDirectory | pdf_processor.py:118-128 | exactly the entries whose lower-cased name ends in `.pdf` are processed, in listing order, and their documents are collected |
| PdfIngest.OnlyPdfNamesCount | pdf_processor.py:121-128 | dropping the non-`.pdf` entries changes nothing; there is at most one document per `.pdf` entry |

## Left out

- HTTP: headers, URLs of the API calls, status handling and JSON decoding. A
  page request that raises is `Failed`, whether from the transport, a
  non-success status (`raise_for_status` in `reverse_api.py`), or a body that
  does not decode. A detail fetch is `Option<RawThread>`.
- The `check_login_type` and `get_token` requests are given as their replies;
  printing their status and headers is output only.
- The browser login in `login_to_ed` (Playwright, AgentQL, the course card
  click) is the boolean `loggedIn`. The token read from local storage is one
  input, the same for every call in a run.
- Thread detail responses that lack a key (a `KeyError` in
  `extract_thread_data`, which ends the script) are not modelled: a
  `RawThread` has every field. An empty JSON object as a detail response,
  which is falsy and skipped, is folded into `None`.
- JSON values in login replies are modelled as strings (`map<string,string>`).
- `print` and `logging` output, `load_dotenv`, and reading environment
  variables: credentials are inputs.
- Printing the first thread record at the end of the direct script's `main`.
- PDF parsing with `PdfReader`: page texts are an input `seq<string>`, and
  `extract_text` never returns `None` here. The `except` branch of
  `process_pdf` is a read that yields `None`.
- `datetime.now().isoformat()` is the input `clock(name)`.
- `os.path.exists`, `os.listdir` and `os.path.join`: the directory listing is
  an input sequence of entry names without '/'.
- `send_to_api` and the final API post in `main`: network output, not
  modelled.
- The `except` branch of `clean_content` cannot be reached with string input,
  since neither substitution raises.
- `process_pdf` returns a one-element list or `None`; the model returns
  `Option<PdfDocument>`, which `main` extends by the same element.
- PdfText.Lower: lower-cases ASCII letters only. Python's `lower()` also maps
  non-ASCII letters, some of them (the Kelvin sign, for one) onto ASCII
  letters. So `DetermineAssignmentType` and `IsPdfName` can disagree with the
  source on names with such characters.
- PdfText.IsSpace: Python's `\s` and `strip()` use the Unicode whitespace
  table. The model lists those characters explicitly and does not cover
  changes in later Unicode versions.
