/** The CRLF detector, the batch validator and the pull-request report
    (src/validation.ts). */
module Validation {
  import opened Wrappers
  import opened JsText
  import opened UserStrings

  /** One changed file of a pull request: its path and the URL of its raw,
      server-side content. */
  datatype PullListFile = PullListFile(filename: string, rawUrl: string)

  // ---------------------------------------------------------------------------
  // CRLF detector

  /** A carriage return at index `i` is immediately followed by a line feed. */
  predicate CrlfAt(content: string, i: int)
  {
    0 <= i && i + 1 < |content| && content[i] == '\r' && content[i + 1] == '\n'
  }

  /** The regular-expression test for a CR LF pair, on an expression built
      afresh for each call: a left-to-right search that starts at index 0
      every time, so no match position carries over from an earlier call. */
  predicate CheckFileContentForCrlf(content: string)
  {
    |content| >= 2 &&
    ((content[0] == '\r' && content[1] == '\n') || CheckFileContentForCrlf(content[1..]))
  }

  /** The detector answers true exactly when some index starts a CRLF pair. */
  lemma {:induction false} CrlfIff(content: string)
    ensures CheckFileContentForCrlf(content) <==> exists i :: CrlfAt(content, i)
  {
    if |content| >= 2 {
      var tail := content[1..];
      CrlfIff(tail);
      if CheckFileContentForCrlf(content) {
        if !(content[0] == '\r' && content[1] == '\n') {
          var j :| CrlfAt(tail, j);
          assert CrlfAt(content, j + 1);
        } else {
          assert CrlfAt(content, 0);
        }
      }
      if i :| CrlfAt(content, i) {
        if i > 0 {
          assert CrlfAt(tail, i - 1);
        }
      }
    } else {
      assert forall i :: !CrlfAt(content, i);
    }
  }

  /** Text without any carriage return is never flagged: LF-only files pass. */
  lemma {:induction false} NoCarriageReturnNoCrlf(content: string)
    requires '\r' !in content
    ensures !CheckFileContentForCrlf(content)
  {
    if |content| >= 2 {
      assert '\r' !in content[1..];
      NoCarriageReturnNoCrlf(content[1..]);
    }
  }

  /** Appending or prepending text never hides a CRLF pair already present,
      so a single pair anywhere in mixed-style text is enough to flag it. */
  lemma CrlfSurvivesExtension(s: string, t: string)
    requires CheckFileContentForCrlf(s)
    ensures CheckFileContentForCrlf(s + t) && CheckFileContentForCrlf(t + s)
  {
    CrlfIff(s);
    var i :| CrlfAt(s, i);
    assert CrlfAt(s + t, i);
    assert CrlfAt(t + s, |t| + i);
    CrlfIff(s + t);
    CrlfIff(t + s);
  }

  /** The detector keeps no match position between calls: each of two
      successive calls on different CRLF-containing texts is answered from its
      own argument alone. */
  lemma SuccessiveCallsIndependent(first: string, second: string)
    requires exists i :: CrlfAt(first, i)
    requires exists j :: CrlfAt(second, j)
    ensures CheckFileContentForCrlf(first) && CheckFileContentForCrlf(second)
  {
    CrlfIff(first);
    CrlfIff(second);
  }

  /** The CRLF-only, LF-only and mixed contents of the repository's tests. */
  const CRLF_SAMPLE: string := "This file has\r\nWindows-style line-endings.\r\n"
  const LF_SAMPLE: string := "This file has\nUnix-style line-endings.\n"
  const MIXED_SAMPLE: string := "This file has both\nWindows-style and \r\nUnix-style line endings.\r\n"

  /** The CRLF-only sample of the repository's tests has a pair at index 13. */
  lemma CrlfSampleHasPair()
    ensures exists i :: CrlfAt(CRLF_SAMPLE, i)
  {
    assert CrlfAt(CRLF_SAMPLE, 13);
  }

  /** The mixed sample of the repository's tests has a pair at index 37. */
  lemma MixedSampleHasPair()
    ensures exists i :: CrlfAt(MIXED_SAMPLE, i)
  {
    assert CrlfAt(MIXED_SAMPLE, 37);
  }

  /** CRLF-only and mixed text, as in the repository's tests, are flagged. */
  lemma CrlfSamplesFlagged()
    ensures CheckFileContentForCrlf(CRLF_SAMPLE)
    ensures CheckFileContentForCrlf(MIXED_SAMPLE)
  {
    CrlfSampleHasPair();
    MixedSampleHasPair();
    CrlfIff(CRLF_SAMPLE);
    CrlfIff(MIXED_SAMPLE);
  }

  /** LF-only text, as in the repository's tests, and a lone carriage return
      are not flagged. */
  lemma LfSamplesNotFlagged()
    ensures !CheckFileContentForCrlf(LF_SAMPLE)
    ensures !CheckFileContentForCrlf("a\nb\n")
    ensures !CheckFileContentForCrlf("\r")
  {
    NoCarriageReturnNoCrlf(LF_SAMPLE);
    NoCarriageReturnNoCrlf("a\nb\n");
  }

  // ---------------------------------------------------------------------------
  // Batch validator

  /** The filenames, in input order, of the files whose fetched content
      contains CRLF: what one pass of the loop body over each file collects. */
  function Flagged(files: seq<PullListFile>, fetch: string -> string): (r: seq<string>)
    ensures |r| <= |files|
  {
    if files == [] then []
    else
      var head := if CheckFileContentForCrlf(fetch(files[0].rawUrl)) then [files[0].filename] else [];
      head + Flagged(files[1..], fetch)
  }

  /** A single file is collected exactly when its content contains CRLF. */
  lemma FlaggedSingle(file: PullListFile, fetch: string -> string)
    ensures Flagged([file], fetch) ==
      if CheckFileContentForCrlf(fetch(file.rawUrl)) then [file.filename] else []
  {
    assert [file][1..] == [];
  }

  /** One more iteration of the loop body appends the file's name exactly when
      its content contains CRLF, and otherwise leaves the list as it was. */
  lemma {:induction false} FlaggedStep(files: seq<PullListFile>, file: PullListFile, fetch: string -> string)
    ensures Flagged(files + [file], fetch) ==
      if CheckFileContentForCrlf(fetch(file.rawUrl)) then Flagged(files, fetch) + [file.filename]
      else Flagged(files, fetch)
  {
    if files != [] {
      assert (files + [file])[1..] == files[1..] + [file];
      FlaggedStep(files[1..], file, fetch);
    } else {
      assert [file][1..] == [];
    }
  }

  /** Collecting over two lists one after the other gives the two results one
      after the other: the order of the input is kept. */
  lemma {:induction false} FlaggedConcat(a: seq<PullListFile>, b: seq<PullListFile>, fetch: string -> string)
    ensures Flagged(a + b, fetch) == Flagged(a, fetch) + Flagged(b, fetch)
  {
    if a != [] {
      assert (a + b)[1..] == a[1..] + b;
      FlaggedConcat(a[1..], b, fetch);
    } else {
      assert a + b == b;
    }
  }

  /** A name is collected exactly when some file with that name has CRLF content. */
  lemma {:induction false} FlaggedMembership(files: seq<PullListFile>, fetch: string -> string, name: string)
    ensures name in Flagged(files, fetch) <==>
      exists i :: 0 <= i < |files| && files[i].filename == name && CheckFileContentForCrlf(fetch(files[i].rawUrl))
  {
    if files != [] {
      FlaggedMembership(files[1..], fetch, name);
      if i :| 0 <= i < |files| && files[i].filename == name && CheckFileContentForCrlf(fetch(files[i].rawUrl)) {
        if i > 0 {
          assert files[1..][i - 1] == files[i];
        }
      }
      if name in Flagged(files[1..], fetch) {
        var j :| 0 <= j < |files| - 1 && files[1..][j].filename == name && CheckFileContentForCrlf(fetch(files[1..][j].rawUrl));
        assert files[j + 1] == files[1..][j];
      }
    }
  }

  /** Distinct filenames in the input give distinct names in the result. */
  lemma {:induction false} FlaggedDistinct(files: seq<PullListFile>, fetch: string -> string)
    requires forall i, j :: 0 <= i < j < |files| ==> files[i].filename != files[j].filename
    ensures var r := Flagged(files, fetch); forall i, j :: 0 <= i < j < |r| ==> r[i] != r[j]
  {
    if files != [] {
      var tail := files[1..];
      assert forall i, j :: 0 <= i < j < |tail| ==> tail[i].filename == files[i + 1].filename && tail[j].filename == files[j + 1].filename;
      FlaggedDistinct(tail, fetch);
      FlaggedMembership(tail, fetch, files[0].filename);
      assert files[0].filename !in Flagged(tail, fetch);
    }
  }

  /** `checkFilesForCrlf` as written: the `return` sits inside the `for` loop,
      so the first file is fetched and checked and the function returns; an
      empty list never enters the loop and yields nothing. `fetch` stands for
      fetching `file.raw_url` and reading the body as text; `fetched` records
      the URLs fetched. */
  method CheckFilesForCrlf(files: seq<PullListFile>, fetch: string -> string)
    returns (result: Option<seq<string>>, ghost fetched: seq<string>)
    ensures result.None? <==> files == []
    ensures files != [] ==> result == Some(Flagged(files[..1], fetch))
    ensures files != [] ==>
      (result == Some([files[0].filename]) <==> CheckFileContentForCrlf(fetch(files[0].rawUrl)))
    ensures fetched == if files == [] then [] else [files[0].rawUrl]
  {
    var errorFiles: seq<string> := [];
    fetched := [];
    for i := 0 to |files|
      invariant i == 0 && errorFiles == [] && fetched == []
    {
      var file := files[i];
      var content := fetch(file.rawUrl);
      fetched := fetched + [file.rawUrl];
      if CheckFileContentForCrlf(content) {
        errorFiles := errorFiles + [file.filename];
      }
      assert files[..1] == [file] && [file][1..] == [];
      assert Flagged(files[..1], fetch) == errorFiles;
      assert errorFiles == [file.filename] <==> CheckFileContentForCrlf(content);
      return Some(errorFiles), fetched;
    }
    return None, fetched;
  }

  /** Only the first file decides the as-written result: files after it and
      the content behind their URLs play no part. */
  lemma AsWrittenIgnoresLaterFiles(files: seq<PullListFile>, others: seq<PullListFile>,
                                   fetch: string -> string, otherFetch: string -> string)
    requires files != [] && others != [] && files[0] == others[0]
    requires fetch(files[0].rawUrl) == otherFetch(files[0].rawUrl)
    ensures Flagged(files[..1], fetch) == Flagged(others[..1], otherFetch)
    ensures |Flagged(files[..1], fetch)| <= 1
  {
    assert files[..1] == others[..1] == [files[0]];
  }

  /** The raw URLs of the files, in order: what fetching every file requests. */
  function RawUrls(files: seq<PullListFile>): (r: seq<string>)
    ensures |r| == |files|
    ensures forall i :: 0 <= i < |files| ==> r[i] == files[i].rawUrl
  {
    if files == [] then [] else RawUrls(files[..|files| - 1]) + [files[|files| - 1].rawUrl]
  }

  /** `checkFilesForCrlf` as evidently intended: every file is fetched once, in
      order, and the names of those with CRLF content are collected. */
  method CheckAllFilesForCrlf(files: seq<PullListFile>, fetch: string -> string)
    returns (errorFiles: seq<string>, ghost fetched: seq<string>)
    ensures errorFiles == Flagged(files, fetch)
    ensures fetched == RawUrls(files)
  {
    errorFiles := [];
    fetched := [];
    for i := 0 to |files|
      invariant errorFiles == Flagged(files[..i], fetch)
      invariant fetched == RawUrls(files[..i])
    {
      var file := files[i];
      var content := fetch(file.rawUrl);
      assert files[..i + 1] == files[..i] + [file];
      assert files[..i + 1][..i] == files[..i];
      fetched := fetched + [file.rawUrl];
      FlaggedStep(files[..i], file, fetch);
      if CheckFileContentForCrlf(content) {
        errorFiles := errorFiles + [file.filename];
      }
    }
    assert files[..|files|] == files;
  }

  /** The pull request of the repository's batch test: CRLF, LF-only and
      mixed content. */
  const SAMPLE_FILES: seq<PullListFile> := [
    PullListFile("file1.md", "https://github.com/file1.md"),
    PullListFile("file2.md", "https://github.com/file2.md"),
    PullListFile("file3.md", "https://github.com/file3.md")
  ]

  /** On the sample pull request, with the first and third files holding CRLF
      and the second not, the as-written loop reports the first file only,
      while collecting over every file reports the first and the third. */
  lemma FirstFileOnlyOnSample(fetch: string -> string)
    requires CheckFileContentForCrlf(fetch(SAMPLE_FILES[0].rawUrl))
    requires !CheckFileContentForCrlf(fetch(SAMPLE_FILES[1].rawUrl))
    requires CheckFileContentForCrlf(fetch(SAMPLE_FILES[2].rawUrl))
    ensures Flagged(SAMPLE_FILES[..1], fetch) == ["file1.md"]
    ensures Flagged(SAMPLE_FILES, fetch) == ["file1.md", "file3.md"]
  {
    var f1, f2, f3 := SAMPLE_FILES[0], SAMPLE_FILES[1], SAMPLE_FILES[2];
    assert SAMPLE_FILES[..1] == [f1];
    assert SAMPLE_FILES == [f1] + [f2] + [f3];
    FlaggedSingle(f1, fetch);
    FlaggedSingle(f2, fetch);
    FlaggedSingle(f3, fetch);
    FlaggedConcat([f1], [f2], fetch);
    FlaggedConcat([f1] + [f2], [f3], fetch);
  }

  /** The same with the repository's sample contents served for the three
      URLs: the test expects two files, the as-written loop yields one. */
  lemma ReturnInsideLoopMissesLaterFiles(fetch: string -> string)
    requires fetch(SAMPLE_FILES[0].rawUrl) == CRLF_SAMPLE
    requires fetch(SAMPLE_FILES[1].rawUrl) == LF_SAMPLE
    requires fetch(SAMPLE_FILES[2].rawUrl) == MIXED_SAMPLE
    ensures Flagged(SAMPLE_FILES[..1], fetch) == ["file1.md"]
    ensures Flagged(SAMPLE_FILES, fetch) == ["file1.md", "file3.md"]
  {
    CrlfSamplesFlagged();
    LfSamplesNotFlagged();
    FirstFileOnlyOnSample(fetch);
  }

  // ---------------------------------------------------------------------------
  // Report generator

  /** The bulleted list: one line `- <file>` per entry, in order. */
  function BulletList(errorFiles: seq<string>): (r: string)
    ensures |r| == TotalLength(errorFiles) + 3 * |errorFiles|
  {
    if errorFiles == [] then "" else "- " + errorFiles[0] + "\n" + BulletList(errorFiles[1..])
  }

  /** One more `forEach` step appends one bullet line. */
  lemma {:induction false} BulletListSnoc(errorFiles: seq<string>, file: string)
    ensures BulletList(errorFiles + [file]) == BulletList(errorFiles) + "- " + file + "\n"
  {
    if errorFiles != [] {
      assert (errorFiles + [file])[1..] == errorFiles[1..] + [file];
      BulletListSnoc(errorFiles[1..], file);
    } else {
      assert [file][1..] == [];
    }
  }

  /** The bullet list of a concatenation is the concatenation of the lists. */
  lemma {:induction false} BulletListConcat(a: seq<string>, b: seq<string>)
    ensures BulletList(a + b) == BulletList(a) + BulletList(b)
  {
    if a != [] {
      assert (a + b)[1..] == a[1..] + b;
      BulletListConcat(a[1..], b);
    } else {
      assert a + b == b;
    }
  }

  /** A non-empty bullet list ends with a line feed. */
  lemma BulletListEndsLine(errorFiles: seq<string>)
    requires errorFiles != []
    ensures |BulletList(errorFiles)| > 0
    ensures BulletList(errorFiles)[|BulletList(errorFiles)| - 1] == '\n'
  {
    var n := |errorFiles|;
    assert errorFiles == errorFiles[..n - 1] + [errorFiles[n - 1]];
    BulletListSnoc(errorFiles[..n - 1], errorFiles[n - 1]);
  }

  /** Every entry has its own bullet line in the list: entry k comes right
      after the lines of the entries before it, at the start of a line. */
  lemma BulletEntry(errorFiles: seq<string>, k: nat) returns (offset: nat)
    requires k < |errorFiles|
    ensures offset == |BulletList(errorFiles[..k])|
    ensures OccursAt(BulletList(errorFiles), "- " + errorFiles[k] + "\n", offset)
    ensures offset == 0 || BulletList(errorFiles)[offset - 1] == '\n'
  {
    var before, after := errorFiles[..k], errorFiles[k + 1..];
    assert errorFiles == before + [errorFiles[k]] + after;
    BulletListConcat(before + [errorFiles[k]], after);
    BulletListConcat(before, [errorFiles[k]]);
    offset := |BulletList(before)|;
    if k > 0 {
      BulletListEndsLine(before);
      assert BulletList(errorFiles)[offset - 1] == BulletList(before)[offset - 1];
    }
  }

  /** The template literal of the report, as its literal runs and its
      substitutions in order: the header, the bullet list, the fix
      introduction, the head branch, the space-joined filenames and the footer. */
  function TemplatePieces(header: string, fixIntro: string, footer: string,
                          fileList: string, head: string, joined: string): seq<string>
  {
    [header, "\n\n", fileList, "\n\n", fixIntro, "\n\n```\n",
     "git checkout ", head, "\n",
     "git fetch origin\n",
     "git rm --cached ", joined, "\n",
     "git add ", joined, "\n",
     "git commit -a -m \"Fix line endings\"\ngit push\n```\n\n", footer]
  }

  /** The template literal filled in: a template literal evaluates to its
      literal runs and substitutions concatenated in order. */
  function RenderTemplate(header: string, fixIntro: string, footer: string,
                          fileList: string, head: string, joined: string): string
  {
    Concat(TemplatePieces(header, fixIntro, footer, fileList, head, joined))
  }

  /** The report for a list of offending files and the head branch, with the
      texts of src/strings.ts. */
  function PrComment(errorFiles: seq<string>, head: string): string
  {
    RenderTemplate(PR_REPORT_HEADER, PR_REPORT_FIX_INTRO, PR_REPORT_FOOTER,
                   BulletList(errorFiles), head, Join(errorFiles, " "))
  }

  /** Whatever the three fixed texts, the filled-in template starts with the
      header, then a blank line and the bullet list, and ends with the footer. */
  lemma TemplateFrame(header: string, fixIntro: string, footer: string,
                      fileList: string, head: string, joined: string)
    ensures var r := RenderTemplate(header, fixIntro, footer, fileList, head, joined);
      StartsWith(r, header) &&
      OccursAt(r, "\n\n" + fileList + "\n\n", |header|) &&
      EndsWith(r, footer) &&
      |header| + |footer| <= |r|
  {
    var parts := TemplatePieces(header, fixIntro, footer, fileList, head, joined);
    assert |parts| == 18 && parts[..0] == [];
    PieceAt(parts, 0);
    RunAt(parts, 1, "\n\n", fileList, "\n\n");
    PrefixConcatStep(parts, 0);
    PieceAt(parts, 17);
    LastPieceEnds(parts);
    PrefixLengthGrows(parts, 0, 17);
  }

  /** Whatever the three fixed texts, after the header come, in this order, the
      `git checkout` line naming the head branch and the `git rm --cached` and
      `git add` lines naming the joined filenames. */
  lemma TemplateCommands(header: string, fixIntro: string, footer: string,
                         fileList: string, head: string, joined: string)
    returns (checkoutAt: nat, rmAt: nat, addAt: nat)
    ensures var r := RenderTemplate(header, fixIntro, footer, fileList, head, joined);
      OccursAt(r, "git checkout " + head + "\n", checkoutAt) &&
      OccursAt(r, "git rm --cached " + joined + "\n", rmAt) &&
      OccursAt(r, "git add " + joined + "\n", addAt) &&
      |header| < checkoutAt < rmAt < addAt &&
      r[checkoutAt - 1] == '\n' && r[rmAt - 1] == '\n' && r[addAt - 1] == '\n'
  {
    var parts := TemplatePieces(header, fixIntro, footer, fileList, head, joined);
    assert |parts| == 18 && parts[..0] == [];
    checkoutAt, rmAt, addAt := |Concat(parts[..6])|, |Concat(parts[..10])|, |Concat(parts[..13])|;
    RunAt(parts, 6, "git checkout ", head, "\n");
    RunAt(parts, 10, "git rm --cached ", joined, "\n");
    RunAt(parts, 13, "git add ", joined, "\n");
    PrefixConcatStep(parts, 0);
    PrefixLengthGrows(parts, 1, 6);
    PrefixLengthGrows(parts, 6, 10);
    PrefixLengthGrows(parts, 10, 13);
    StartsLine(parts, 6);
    StartsLine(parts, 10);
    StartsLine(parts, 13);
  }

  /** `generatePrComment`: builds the bullet list one file at a time, then
      fills the template. */
  method GeneratePrComment(errorFiles: seq<string>, head: string) returns (comment: string)
    ensures comment == PrComment(errorFiles, head)
  {
    var fileList := "";
    for i := 0 to |errorFiles|
      invariant fileList == BulletList(errorFiles[..i])
    {
      BulletListSnoc(errorFiles[..i], errorFiles[i]);
      assert errorFiles[..i + 1] == errorFiles[..i] + [errorFiles[i]];
      fileList := fileList + "- " + errorFiles[i] + "\n";
    }
    assert errorFiles[..|errorFiles|] == errorFiles;
    comment := RenderTemplate(PR_REPORT_HEADER, PR_REPORT_FIX_INTRO, PR_REPORT_FOOTER,
                              fileList, head, Join(errorFiles, " "));
  }

  /** The report starts with the header, then a blank line and the bullet
      list, and ends with the footer. */
  lemma ReportFrame(errorFiles: seq<string>, head: string)
    ensures StartsWith(PrComment(errorFiles, head), PR_REPORT_HEADER)
    ensures OccursAt(PrComment(errorFiles, head), "\n\n" + BulletList(errorFiles) + "\n\n", |PR_REPORT_HEADER|)
    ensures EndsWith(PrComment(errorFiles, head), PR_REPORT_FOOTER)
  {
    TemplateFrame(PR_REPORT_HEADER, PR_REPORT_FIX_INTRO, PR_REPORT_FOOTER,
                  BulletList(errorFiles), head, Join(errorFiles, " "));
  }

  /** After the header come, in this order, the `git checkout` line naming the
      head branch and the `git rm --cached` and `git add` lines naming the
      offending files joined by spaces. */
  lemma ReportCommands(errorFiles: seq<string>, head: string)
    returns (checkoutAt: nat, rmAt: nat, addAt: nat)
    ensures OccursAt(PrComment(errorFiles, head), "git checkout " + head + "\n", checkoutAt)
    ensures OccursAt(PrComment(errorFiles, head), "git rm --cached " + Join(errorFiles, " ") + "\n", rmAt)
    ensures OccursAt(PrComment(errorFiles, head), "git add " + Join(errorFiles, " ") + "\n", addAt)
    ensures |PR_REPORT_HEADER| < checkoutAt < rmAt < addAt
    ensures var r := PrComment(errorFiles, head);
      r[checkoutAt - 1] == '\n' && r[rmAt - 1] == '\n' && r[addAt - 1] == '\n'
  {
    checkoutAt, rmAt, addAt := TemplateCommands(PR_REPORT_HEADER, PR_REPORT_FIX_INTRO, PR_REPORT_FOOTER,
                                                BulletList(errorFiles), head, Join(errorFiles, " "));
  }

  /** An entry at the start of a line of the bullet list is also at the start
      of a line of any text that holds the list framed by blank lines. */
  lemma FramedEntry(r: string, listAt: nat, fileList: string, entry: string, inList: nat)
    requires OccursAt(r, "\n\n" + fileList + "\n\n", listAt)
    requires OccursAt(fileList, entry, inList)
    requires inList == 0 || fileList[inList - 1] == '\n'
    ensures OccursAt(r, entry, listAt + 2 + inList)
    ensures r[listAt + 1 + inList] == '\n'
  {
    var window := "\n\n" + fileList + "\n\n";
    OccursInMiddle("\n\n", fileList, "\n\n");
    OccursWithin(window, fileList, entry, 2, inList);
    OccursWithin(r, window, entry, listAt, 2 + inList);
    if inList > 0 {
      assert window[1 + inList] == fileList[inList - 1];
    }
    OccursAtChar(r, window, listAt, 1 + inList);
  }

  /** In any text holding the framed bullet list right after a header, entry
      k sits inside that list, at the start of a line. */
  lemma EntryAfterHeader(r: string, headerLength: nat, errorFiles: seq<string>, k: nat)
    returns (offset: nat)
    requires k < |errorFiles|
    requires OccursAt(r, "\n\n" + BulletList(errorFiles) + "\n\n", headerLength)
    ensures OccursAt(r, "- " + errorFiles[k] + "\n", offset)
    ensures offset == headerLength + 2 + |BulletList(errorFiles[..k])|
    ensures offset + |errorFiles[k]| + 3 <= headerLength + 2 + |BulletList(errorFiles)|
    ensures r[offset - 1] == '\n'
  {
    var inList := BulletEntry(errorFiles, k);
    FramedEntry(r, headerLength, BulletList(errorFiles), "- " + errorFiles[k] + "\n", inList);
    offset := headerLength + 2 + inList;
  }

  /** Whatever the three fixed texts, entry k of the bullet list sits inside
      the list that follows the header and a blank line, at the start of a
      line. */
  lemma TemplateEntry(header: string, fixIntro: string, footer: string,
                      errorFiles: seq<string>, head: string, joined: string, k: nat)
    returns (offset: nat)
    requires k < |errorFiles|
    ensures var r := RenderTemplate(header, fixIntro, footer, BulletList(errorFiles), head, joined);
      OccursAt(r, "- " + errorFiles[k] + "\n", offset) &&
      offset == |header| + 2 + |BulletList(errorFiles[..k])| &&
      offset + |errorFiles[k]| + 3 <= |header| + 2 + |BulletList(errorFiles)| &&
      r[offset - 1] == '\n'
  {
    var r := RenderTemplate(header, fixIntro, footer, BulletList(errorFiles), head, joined);
    TemplateFrame(header, fixIntro, footer, BulletList(errorFiles), head, joined);
    offset := EntryAfterHeader(r, |header|, errorFiles, k);
  }

  /** Every offending file has its own bullet line in the report: inside the
      bullet list that follows the header and a blank line, in input order,
      at the start of a line. */
  lemma ReportListsEachFile(errorFiles: seq<string>, head: string, k: nat) returns (offset: nat)
    requires k < |errorFiles|
    ensures OccursAt(PrComment(errorFiles, head), "- " + errorFiles[k] + "\n", offset)
    ensures offset == |PR_REPORT_HEADER| + 2 + |BulletList(errorFiles[..k])|
    ensures offset + |errorFiles[k]| + 3 <= |PR_REPORT_HEADER| + 2 + |BulletList(errorFiles)|
    ensures PrComment(errorFiles, head)[offset - 1] == '\n'
  {
    offset := TemplateEntry(PR_REPORT_HEADER, PR_REPORT_FIX_INTRO, PR_REPORT_FOOTER,
                            errorFiles, head, Join(errorFiles, " "), k);
  }

  /** With no offending files the list is empty and the `git rm --cached` line
      keeps its trailing space. */
  lemma EmptyListReport(head: string) returns (rmAt: nat)
    ensures BulletList([]) == "" && Join([], " ") == ""
    ensures OccursAt(PrComment([], head), "git rm --cached \n", rmAt)
  {
    var _, rm, _ := ReportCommands([], head);
    rmAt := rm;
  }

  /** Filenames without spaces can be read back from the `git rm --cached` and
      `git add` lines by splitting at spaces. */
  lemma JoinedFilesRecoverable(errorFiles: seq<string>)
    requires errorFiles != []
    requires forall f :: f in errorFiles ==> ' ' !in f
    ensures Split(Join(errorFiles, " "), ' ') == errorFiles
  {
    SplitJoin(errorFiles, ' ');
  }

  /** No escaping is done: a filename with a space reads as two paths in the
      git command lines. */
  lemma SpaceInFilenameBreaksCommand()
    ensures Split(Join(["my file.md"], " "), ' ') == ["my", "file.md"]
  {
    assert ["my file.md"][1..] == [];
    assert "my file.md" == "my" + [' '] + "file.md";
    SplitInTwo("my", ' ', "file.md");
  }

  /** Two entries make two bullet lines. */
  lemma BulletPair(a: string, b: string)
    ensures BulletList([a, b]) == "- " + a + "\n" + ("- " + b + "\n")
  {
    assert [a, b][1..] == [b];
    assert [b][1..] == [];
  }

  /** The report is the template filled with the list's bullet lines and its
      space-joined names. */
  lemma PrCommentFills(errorFiles: seq<string>, head: string, fileList: string, joined: string)
    requires BulletList(errorFiles) == fileList && Join(errorFiles, " ") == joined
    ensures PrComment(errorFiles, head) ==
      RenderTemplate(PR_REPORT_HEADER, PR_REPORT_FIX_INTRO, PR_REPORT_FOOTER, fileList, head, joined)
  {
  }

  /** The bullet list of the repository's report test
      (`['test.md', 'subfolder/test2.md']`): one line per file, in order. */
  lemma SampleBulletList()
    ensures BulletList(["test.md", "subfolder/test2.md"]) == "- test.md\n- subfolder/test2.md\n"
  {
    BulletPair("test.md", "subfolder/test2.md");
  }

  /** The names of the repository's report test, joined by a space. */
  lemma SampleJoined()
    ensures Join(["test.md", "subfolder/test2.md"], " ") == "test.md subfolder/test2.md"
  {
    JoinPair("test.md", "subfolder/test2.md", " ");
  }

  /** For the two files and the branch of the repository's report test
      (`['test.md', 'subfolder/test2.md']` and `'patch-1'`) the template is
      filled with one bullet line per file and the space-joined names. */
  lemma SampleReport()
    ensures PrComment(["test.md", "subfolder/test2.md"], "patch-1") ==
      RenderTemplate(PR_REPORT_HEADER, PR_REPORT_FIX_INTRO, PR_REPORT_FOOTER,
                     "- test.md\n- subfolder/test2.md\n", "patch-1", "test.md subfolder/test2.md")
  {
    SampleBulletList();
    SampleJoined();
    PrCommentFills(["test.md", "subfolder/test2.md"], "patch-1",
                   "- test.md\n- subfolder/test2.md\n", "test.md subfolder/test2.md");
  }
}
