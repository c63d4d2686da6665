# eol-blocker validation core, modelled in Dafny

eol-blocker is a GitHub action that stops pull requests which add files with
Windows-style line endings (CR LF). Its logic lives in `src/validation.ts`, in
three functions:

- `checkFileContentForCrlf`: the CRLF detector. It tests a file's text for a
  carriage return immediately followed by a line feed.
- `checkFilesForCrlf`: the batch validator. It is meant to fetch each changed
  file's raw content from its `raw_url` and collect the names of the files that
  contain CRLF. As written it returns after the first file (see Findings).
- `generatePrComment`: the report generator. It builds the pull-request
  comment: a header, a bulleted list of the offending files, the git commands
  that fix them, and a footer.

The model has four modules:

- `Wrappers` (wrappers.dfy) holds `Option`.
- `UserStrings` (strings.dfy) holds the texts of `src/strings.ts`.
- `JsText` (jstext.dfy) models the JavaScript string operations the report
  uses: `Array.prototype.join` and template-literal evaluation (`Concat`). It
  also models `String.prototype.split` as the inverse of `join`. Its
  predicates `StartsWith`, `EndsWith` and `OccursAt` are not used by the
  report; they exist only to state properties of it.
- `Validation` (validation.dfy) models the three functions.

How the model is built:

- The detector is a recursive predicate. It is proved equal to "some index
  starts a CR LF pair".
- The batch validator is a method with the source's `for` loop. Fetching the
  body of `file.raw_url` is a parameter `fetch: string -> string` from raw URL
  to text. A ghost out-parameter `fetched` records the URLs the method fetches.
- The report generator is a method with the source's `forEach` loop. It is
  proved equal to the function `PrComment`.
- The report template is evaluated as a template literal: its literal runs and
  its substitutions are concatenated in order (`TemplatePieces`).

Where the code and its tests (test/validation.test.ts) disagree, the model
follows the code:

- The code has no exclusion filter, although the tests at
  test/validation.test.ts:287-310 exercise one.
- The code inspects only the first file, although the test at
  test/validation.test.ts:217 expects two of three files (see Findings).
- The code's report says `git fetch origin` where the expected comment at
  test/validation.test.ts:34 says `git pull origin`. Its footer is the one in
  `src/strings.ts`, not the text at test/validation.test.ts:26-41.
- `PR_REPORT_FIX_INTRO` is used by the template but not defined in
  `src/strings.ts`. The model declares it as a string constant with no value,
  so every property is proved for whatever text it holds.

## Model

| member | source | states |
|---|---|---|
| Validation.CrlfIff | src/validation.ts:33-35 | The detector is true iff some index i has content[i] == '\r' and content[i+1] == '\n'. Both directions are proved. |
| Validation.NoCarriageReturnNoCrlf | src/validation.ts:33-35 | Text with no carriage return at all, such as LF-only text, is never flagged. |
| Validation.CrlfSurvivesExtension | src/validation.ts:34 | If s contains CRLF, so do s + t and t + s. One pair anywhere in mixed-style text is enough. |
| Validation.SuccessiveCallsIndependent | src/validation.ts:34 | Two successive calls on two different CRLF-containing texts both return true. Each answer depends only on its own argument, because the regular expression is fresh on each call. |
| Validation.CrlfSamplesFlagged | test/validation.test.ts:47-50 | The CRLF-only and mixed sample contents of the tests are flagged. |
| Validation.LfSamplesNotFlagged | test/validation.test.ts:48 | The LF-only sample, "a\nb\n" and a lone "\r" are not flagged. |
| Validation.Flagged | src/validation.ts:13-27 | Collecting over the files yields at most one name per file. |
| Validation.FlaggedSingle | src/validation.ts:20-27 | One file is collected exactly when its fetched content contains CRLF. |
| Validation.FlaggedStep | src/validation.ts:20-27 | One more loop iteration appends file.filename exactly when the detector is true for that file's content. Otherwise the list is unchanged. |
| Validation.FlaggedConcat | src/validation.ts:13-28 | Collecting over a + b gives the result for a followed by the result for b, so input order is kept. |
| Validation.FlaggedMembership | src/validation.ts:13-28 | A name is in the result iff some input file has that name and CRLF content. |
| Validation.FlaggedDistinct | src/validation.ts:13-28 | If the input filenames are distinct, no name appears twice in the result. |
| Validation.CheckFilesForCrlf | src/validation.ts:9-31 | As written: an empty list gives None, because the function falls off the end. Otherwise the result is Some of the collection over files[..1]. It equals Some([files[0].filename]) iff files[0]'s content contains CRLF, and Some([]) otherwise. Only files[0].raw_url is fetched. |
| Validation.AsWrittenIgnoresLaterFiles | src/validation.ts:13-30 | The as-written result has length at most 1. It is the same for any two inputs with the same first file and the same content behind its URL. |
| Validation.CheckAllFilesForCrlf | src/validation.ts:9-31 | Corrected loop: every file's URL is fetched once, in order (`RawUrls`). The result is exactly the in-order names of the files with CRLF content. |
| Validation.RawUrls | src/validation.ts:13-17 | Position i of the fetch order is file i's raw URL, one per file. |
| Validation.FirstFileOnlyOnSample | src/validation.ts:29 | On three files where the first and third have CRLF, the as-written result is ["file1.md"]. Collecting over all files gives ["file1.md", "file3.md"]. |
| Validation.ReturnInsideLoopMissesLaterFiles | test/validation.test.ts:186-217 | With the test's CRLF, LF and mixed contents, the as-written loop yields one name. The test expects two. |
| Validation.BulletList | src/validation.ts:38-43 | The bullet block has length equal to the sum over entries of \|f\| + 3, and is "" for an empty list. |
| Validation.BulletListSnoc | src/validation.ts:41-43 | One forEach step appends exactly "- " + file + "\n" to the accumulated list. |
| Validation.BulletListConcat | src/validation.ts:41-43 | The bullet block of a + b is the block of a followed by the block of b, in order. |
| Validation.BulletEntry | src/validation.ts:41-43 | Entry k's line "- " + f + "\n" starts right after the lines of the entries before it, and it starts a line: it is first or follows a line feed. |
| Validation.GeneratePrComment | src/validation.ts:37-61 | The method's loop builds the bullet block of all entries in order. It returns exactly PrComment(errorFiles, head): the template filled with that block, the head branch and the space-joined names. |
| Validation.TemplateFrame | src/validation.ts:45-60 | For any header, fix introduction and footer, the filled template starts with the header. "\n\n" + fileList + "\n\n" follows right after it, and the template ends with the footer. |
| Validation.TemplateCommands | src/validation.ts:51-58 | For any fixed texts, the lines "git checkout <head>", "git rm --cached <joined>" and "git add <joined>" occur, in that order, after the header. Each ends with a line feed and follows one. |
| Validation.ReportFrame | src/validation.ts:45-60 | The report starts with PR_REPORT_HEADER and ends with PR_REPORT_FOOTER. The bullet block follows the header after a blank line. |
| Validation.ReportCommands | src/validation.ts:52-55 | The report holds the checkout line naming the head branch, then the rm and add lines naming the files joined by single spaces, in that order. Each is a whole line: it follows a line feed and ends with one. |
| Validation.TemplateEntry | src/validation.ts:41-47 | For any fixed texts, entry k's bullet line lies inside the list that follows the header and a blank line. It sits after the lines of the entries before it and starts a line. |
| Validation.ReportListsEachFile | src/validation.ts:41-47 | Every offending file has its own bullet line in the report. That line lies inside the bullet list after the header and a blank line, in input order, at the start of a line. |
| Validation.EmptyListReport | src/validation.ts:38-54 | With no files the block is "" and the rm line is "git rm --cached " with a trailing space. |
| Validation.JoinedFilesRecoverable | src/validation.ts:54-55 | If no filename contains a space, splitting the joined list at spaces gives back the list. |
| Validation.SpaceInFilenameBreaksCommand | src/validation.ts:54-55 | There is no escaping: "my file.md" reads back as the two paths "my" and "file.md". |
| Validation.SampleBulletList | test/validation.test.ts:17-24 | For the report test's files ['test.md', 'subfolder/test2.md'], the block is "- test.md\n- subfolder/test2.md\n", one line per file. |
| Validation.SampleJoined | test/validation.test.ts:17-36 | The report test's files join to "test.md subfolder/test2.md", the text its rm and add lines name. |
| Validation.SampleReport | test/validation.test.ts:17-18 | For the report test's files and head 'patch-1', the report is the template filled with that block, 'patch-1' and that joined list. |
| JsText.Join | src/validation.ts:54 | join gives "" for an empty list. Otherwise its length is the sum of the part lengths plus one separator between each pair of neighbours. |
| JsText.SplitJoin | src/validation.ts:54-55 | Splitting a non-empty joined list recovers it when no part contains the separator. |

## Left out

- Glob-based file exclusion is not in `src/validation.ts`. It would rely on a
  glob library that is not part of this model.
- Fetching `file.raw_url` and decoding the body is I/O. It is the parameter
  `fetch`, a total function, so a failed request or decode is not modelled.
- `async`/`await` and Promises are not modelled. The loop is sequential, and the
  method's `None` stands for the `undefined` the async function returns.
- Console logging is left out.
- The unused imports of `@actions/core`, `@actions/github` and
  `@octokit/webhooks` are left out.
- `src/index.ts` only logs context fields and is not part of this model.
- The Octokit and base64 content path and the later function signatures
  belong to a different revision and are not modelled.
- `PR_REPORT_FIX_INTRO` has no definition in `src/strings.ts`. If a build
  allowed that, the namespace import would read `undefined` and the comment
  would contain that word. The model keeps it as an arbitrary string.
- JavaScript strings are sequences of UTF-16 code units. Dafny `char` is used
  instead. This makes no difference to detecting CR and LF.
- Determinism and idempotence of the report hold because `PrComment` is a
  function. No separate lemma states them.

## Findings

| source | as written | input that shows it | evidently intended | confidence | as-written member | corrected member |
|---|---|---|---|---|---|---|
| src/validation.ts:29 | `return errorFiles` sits inside the `for` loop. Only the first file is fetched and checked, and an empty list returns nothing. | file1.md (CRLF), file2.md (LF-only), file3.md (mixed): the result is ["file1.md"] | Check every file and return ["file1.md", "file3.md"]. The test at test/validation.test.ts:217 expects two. | not executed | Validation.CheckFilesForCrlf | Validation.CheckAllFilesForCrlf |

The as-written member is `Validation.CheckFilesForCrlf`. `Validation.ReturnInsideLoopMissesLaterFiles` and `Validation.FirstFileOnlyOnSample` exhibit the discrepancy on that input.
