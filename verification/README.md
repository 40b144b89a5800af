# WebWorker: a verified model of a one-request web responder

The modelled program serves one HTTP request per connection (`WebWorker.java`). It
reads the request lines and takes a file name from every line that holds `GET`,
using fixed string positions. It infers a content type from that name, writes a
header whose status line says whether the file exists, and then writes one of three
bodies:

- an HTML page built from the file, with template expansion;
- the raw bytes of an image;
- a fixed 404 page.

The model keeps the program's three stages, one module each:

- `RequestReader`: the file-name extraction (`ExtractFileName`), the content-type
  inference (`InferContentType`), one turn of the read loop (`ReadLine`) and the
  effect of the whole loop on the file name (`ReadFileName`). These are functions.
- `Worker.WebWorker`: a class holding the two fields that `readHTTPRequest` updates in
  place, `fileName` and `contentType`. Its method `ReadHTTPRequest` is the
  `while (true)` loop with its `break` exits. It is proved equal to `ReadFileName`.
  It also keeps the invariant that the content type is always the inference on the
  current name (`Valid`).
- `HeaderWriter`: the header text. It is read back line by line in `HeaderLines`.
- `BodyWriter`: the copy loop over the file's lines (`WriteHtmlLines` and
  `WriteLine`), proved against `HtmlLines`, and the three-way choice of
  `writeContent` (`WriteContent`).
- `Worker.Respond`: the order in which `run` calls the stages.
- `JavaText`: the `java.lang.String` operations the code relies on, with Java's
  conventions. `indexOf` and `lastIndexOf` answer -1 when nothing is found,
  `substring` throws on bad bounds, and `replaceAll` is taken on literal patterns.

A Java exception becomes `None`. The outside world becomes parameters:

- the request lines;
- whether the named file exists;
- the file's lines and bytes;
- the formatted header date;
- a fresh clock reading for each file line that holds `<cs371date>` (`stamps[i]`,
  because `writeContent` calls `new Date()` inside that test; `stamps[i]` is unused
  for other lines).

## Behaviour kept

The model keeps these behaviours of the program as they are:
- The 404 status line is `HTTP/1.1 404 Not Found !`, with the trailing ` !`.
- A template line is written up to three times: a date-substituted copy, a
  server-substituted copy, and the unchanged line. It is never written once with
  both tokens substituted (`ExpandBothTokens`).
- Extraction throws whenever the line has no `/`, or whenever the first `HTTP` before
  the last `/` starts at most one position after the `/` before the name
  (`ExtractFailsIff`). This includes a head without `HTTP` and a name that itself
  starts with `HTTP`.
- It is not the first GET line that decides the name. Every GET line read before the
  loop stops replaces it, so the last one wins (`ReadGetLineReplacesName`).
- The Content-Type header is the inferred type even on 404, and the 404 body is HTML
  whatever that type is.

## Model

| member | source | states |
|---|---|---|
| `JavaText.IndexOfFromSpec` | WebWorker.java:90 | `indexOf` answers the first position at or after the start where the text occurs, or -1 exactly when it occurs nowhere there |
| `JavaText.LastIndexOfSpec` | WebWorker.java:88-90 | `lastIndexOf("/")` answers a position holding `/` with no `/` after it, or -1 when the string has none |
| `JavaText.ContainsIffOccurs` | WebWorker.java:87 | `contains` holds exactly when the text occurs at some position |
| `JavaText.ReplaceAllAbsent` | WebWorker.java:204 | `replaceAll` leaves a string without the pattern unchanged |
| `JavaText.ToLower` | WebWorker.java:94-101 | `toLowerCase` keeps the length, leaves no upper-case ASCII letter, and changes no character other than an upper-case ASCII letter |
| `JavaText.LowerIdempotent` | WebWorker.java:94-101 | lowering a lowered string changes nothing |
| `RequestReader.ExtractRequestLine` | WebWorker.java:87-90 | for a line `<prefix>/<name> HTTP/<version>` whose name and version hold no `/` and whose text before ` HTTP` holds no `HTTP`, the extracted file name is exactly `<name>`, so only the last path segment survives |
| `RequestReader.ExtractFailsWithoutSlash` | WebWorker.java:88 | a line with no `/` makes the first substring throw |
| `RequestReader.ExtractFailsWithoutHttp` | WebWorker.java:88-90 | when the text before the last `/` has no `HTTP`, the second substring throws |
| `RequestReader.ExtractFailsWhenHttpPrecedesName` | WebWorker.java:88-90 | when `HTTP` occurs before the directory that holds the name, the begin index exceeds the end index and extraction throws |
| `RequestReader.ExtractFailsIff` | WebWorker.java:88-90 | extraction throws exactly when the line has no `/` or the first `HTTP` of the text before the last `/` starts no more than one position after that text's last `/` |
| `RequestReader.ExtractedNameShape` | WebWorker.java:88-90 | an extracted name never holds `/` and never holds `HTTP` |
| `RequestReader.InferContentTypeOrder` | WebWorker.java:94-103 | on the lower-cased name, `.gif` gives image/gif even if `.jpeg` or `.png` also occur; otherwise `.jpeg` gives image/jpeg; otherwise `.png` gives image/png; otherwise text/html (so `.jpg` gives text/html) |
| `RequestReader.InferContentTypeIgnoresCase` | WebWorker.java:94-101 | writing a name in upper or in lower case does not change its content type |
| `RequestReader.ReadGetLineReplacesName` | WebWorker.java:87-92 | a GET line that parses replaces the name held before it, and the loop goes on from the new name |
| `RequestReader.ReadBadGetLineKeepsName` | WebWorker.java:87-110 | a GET line whose extraction throws ends the loop with the earlier name unchanged |
| `RequestReader.ReadNeedsGetFirst` | WebWorker.java:94-110 | before any GET line, a line without `GET` ends the loop with a null name (the inference throws on null) |
| `RequestReader.BlankLineEndsLoop` | WebWorker.java:105-106 | reading an empty line ends the loop, whatever name is held |
| `RequestReader.ReadStopsAtBlankLine` | WebWorker.java:80-112 | nothing after the first empty line is read: appending lines after it does not change the result |
| `RequestReader.ReadSkipsHeaders` | WebWorker.java:80-112 | non-empty lines without `GET` leave a known name unchanged |
| `RequestReader.ReadRequest` | WebWorker.java:80-112 | a GET line that parses, then header lines without `GET`, then an empty line: the loop ends with that line's name, whatever it held before and whatever follows |
| `RequestReader.ReadResultOrigin` | WebWorker.java:80-112 | the loop ends holding either its initial name or the name extracted from one of the GET lines it was given (`FromGetLine`) |
| `Worker.WebWorker.constructor` | WebWorker.java:40-43 | a new worker holds a null file name and a null content type, which satisfies its invariant |
| `Worker.WebWorker.ReadHTTPRequest` | WebWorker.java:74-114 | the read loop ends with the file name that `ReadFileName` gives for the lines and the earlier name, and keeps the content type equal to the inference on the current name |
| `Worker.InferredTypeKinds` | WebWorker.java:94-103 | every inferred type is text/html, or a type whose lower-cased text contains `image` and which is not text/html |
| `Worker.SuccessIsNotNotFound` | WebWorker.java:177-179 | the success page, whatever lines follow its preamble, differs from the 404 page |
| `Worker.Respond` | WebWorker.java:51-69 | `run` answers nothing when no file name was read. Otherwise the header carries the name's inferred type, an existing HTML file gives the expanded page, an existing image gives its bytes, and a missing file gives the 404 page. The status line is 200 exactly when the body is not the 404 page |
| `HeaderWriter.FieldLines` | WebWorker.java:131-140 | the part after the status line reads back as `Date: <d>`, `Server: Jon's very own server`, `Connection: close`, `Content-Type: <ct>` and the blank line ending the header |
| `HeaderWriter.HeaderLines` | WebWorker.java:121-161 | the header reads back line by line as the status line (`HTTP/1.1 200 OK` when the file exists, else `HTTP/1.1 404 Not Found !`) followed by the same fields in both branches, in order, with the inferred content type even on 404 |
| `BodyWriter.WriteLine` | WebWorker.java:200-222 | the writes for one file line are those of `ExpandLine`: a date-substituted copy if the line holds `<cs371date>`, a server-substituted copy if it holds `<cs371server>`, then the line itself, each followed by `<br>` |
| `BodyWriter.WriteHtmlLines` | WebWorker.java:197-223 | the copy loop's output is the expansion of every file line, in file order |
| `BodyWriter.WriteContent` | WebWorker.java:168-243 | an existing file of type text/html gives the fixed preamble then its expanded lines. An existing file of another type containing `image` gives exactly its bytes. Everything else gives the fixed 404 page, whatever the content type |
| `BodyWriter.ExpandPlainLine` | WebWorker.java:200-222 | a line holding neither token is written once, followed by `<br>` |
| `BodyWriter.PlainFileReproduced` | WebWorker.java:197-223 | a file without tokens is reproduced line for line, each line once and in order, each followed by `<br>`, whatever the clock says |
| `BodyWriter.ExpandBothTokens` | WebWorker.java:200-222 | a line in which `<cs371date>` occurs only at `d` and `<cs371server>` only at `sv`, in either order and whatever other markup it holds, is written three times: with that one date token replaced by the clock text, with that one server token replaced by the server identity, and unchanged, each followed by `<br>` |
| `BodyWriter.CopiesKeepOtherToken` | WebWorker.java:204-214 | replacing the date token leaves the server token in place (shifted by the change in length when it came after), and replacing the server token leaves the date token in place |
| `BodyWriter.TokensApart` | WebWorker.java:200-214 | an occurrence of `<cs371date>` and one of `<cs371server>` never overlap |
| `JavaText.ReplaceAllSingle` | WebWorker.java:204 | when the pattern occurs exactly once, `replaceAll` replaces that occurrence and copies the rest of the string unchanged |
| `JavaText.ReplaceAllSkipsPrefix` | WebWorker.java:204 | `replaceAll` copies unchanged a prefix at none of whose positions the pattern starts |

## Left out

- Sockets, `run`'s try/catch, flushing and closing (WebWorker.java:51-69): `Respond` only orders the three stages. It answers `None` where `new File(null)` would throw. It does not model that `socket.close()` is skipped after an exception.
- Threads and the `ready()`/`Thread.sleep` busy-poll (WebWorker.java:82-83): the request is a finite sequence of lines. Running out of lines ends the loop. At that point the program would instead sit in the poll forever, because `ready()` stays false at the end of the stream and `readLine` is never called, so it would never respond. `Respond` answers there. A peer that never sends more data is not modelled either.
- Diagnostic printing to standard output and error: it has no effect on the response.
- `Date`, `DateFormat` and the GMT time zone: the formatted header date and the per-line clock text are parameters.
- `File.exists`, `FileReader`, `FileInputStream`, the `(int)` cast of the file length and a short `read`: existence, the file's lines (as `readLine` splits them) and its bytes are parameters. The image body is those bytes.
- `getBytes()`: the text written is modelled as characters. Its encoding to bytes in the platform charset is not modelled.
- `toLowerCase` lowers the ASCII letters only. The program uses the default locale. Under a Turkish or Azerbaijani locale, `I` lowers to a dotless `ı`, so `PHOTO.GIF` gets text/html there while the model gives image/gif. Outside those locales, the other Unicode case mappings cannot create or remove a match of `.gif`, `.jpeg`, `.png` or `image`.
- ExpandBothTokens: covers a line with exactly one occurrence of each token. A line with several occurrences is expanded by the same `ReplaceAll` definition, but no lemma states its result.
- Strings are sequences of Unicode scalar values, while Java counts UTF-16 code units. A character outside the Basic Multilingual Plane is one position in the model and two in the program. Only the one-character cut before `HTTP` (WebWorker.java:90) could tell them apart.
- `replaceAll` is modelled as a literal replacement. The patterns and replacement texts used hold no regular-expression metacharacters and no `$` or `\`.
- Commented-out code (WebWorker.java:135-136, 152-153, 181-191).
