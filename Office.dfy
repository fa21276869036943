/**
 * The Word, Excel and PowerPoint drivers: `convert_office_to_pdf` and
 * `handle_office_conversion`. Each converter run is described by `ran` (did
 * the subprocess exit with status 0) and `produced` (the files in the
 * temporary directory right after converting that input). Reading a
 * converted PDF into the merger is `read(input, pdf)`: the pages of `pdf` as
 * the run for `input` left it, since a later input with the same stem
 * overwrites that file.
 */
module Office {
  import opened Wrappers
  import opened Text
  import opened Merge

  /** The three office formats, each with its label, extensions and default output name. */
  datatype OfficeKind = Word | Excel | PowerPoint
  {
    function Label(): string
    {
      match this
      case Word => "Word"
      case Excel => "Excel"
      case PowerPoint => "PowerPoint"
    }

    function Extensions(): seq<string>
    {
      match this
      case Word => [".docx", ".doc"]
      case Excel => [".xlsx", ".xls"]
      case PowerPoint => [".pptx", ".ppt"]
    }

    function DefaultOutput(): string
    {
      match this
      case Word => "word_merged.pdf"
      case Excel => "excel_merged.pdf"
      case PowerPoint => "powerpoint_merged.pdf"
    }
  }

  /** The root of `splitext(basename(inputPath))`, which contains no `/`. */
  function Stem(inputPath: string): (r: string)
    ensures '/' !in r
  {
    var b := BaseName(inputPath);
    var root := SplitExt(b).0;
    assert forall c :: c in root ==> c in root + SplitExt(b).1;
    root
  }

  /** The name the converter gives its output: the stem of the input's basename plus `.pdf`. */
  function IntermediateName(inputPath: string): (r: string)
    ensures '/' !in r
  {
    assert '/' !in ".pdf";
    Stem(inputPath) + ".pdf"
  }

  /** Where the converted PDF is looked for: `os.path.join(temp_dir, base_name)`. */
  function IntermediatePath(tempDir: string, inputPath: string): string
  {
    Join(tempDir, IntermediateName(inputPath))
  }

  /** The intermediate file's name is the input's stem plus `.pdf`. */
  lemma IntermediateBaseName(tempDir: string, inputPath: string)
    ensures BaseName(IntermediatePath(tempDir, inputPath)) == Stem(inputPath) + ".pdf"
    ensures EndsWith(IntermediatePath(tempDir, inputPath), ".pdf")
  {
    var path := IntermediatePath(tempDir, inputPath);
    var name := IntermediateName(inputPath);
    assert path[|path| - |name|..] == name;
    assert path[|path| - 4..] == name[|name| - 4..];
  }

  /** The intermediate file lies directly inside the temporary directory. */
  lemma IntermediateInTempDir(tempDir: string, inputPath: string)
    ensures var path := IntermediatePath(tempDir, inputPath);
      || path == tempDir + Stem(inputPath) + ".pdf"
      || path == tempDir + "/" + Stem(inputPath) + ".pdf"
  {
    var stem := Stem(inputPath);
    JoinSuffix(tempDir, stem, ".pdf");
  }

  /**
   * The stem is the input's basename without its extension. The extension is
   * empty or one `.`-led part, and it is non-empty exactly when some `.` of
   * the basename has a character other than `.` before it.
   */
  lemma StemSpec(inputPath: string)
    ensures exists ext: string ::
      && Stem(inputPath) + ext == BaseName(inputPath)
      && (ext == [] || (ext[0] == '.' && '.' !in ext[1..]))
      && (ext != [] <==> HasExtension(BaseName(inputPath)))
  {
    var ext := SplitExt(BaseName(inputPath)).1;
    SplitExtAtLastDot(BaseName(inputPath));
    assert Stem(inputPath) + ext == BaseName(inputPath);
  }

  /** `report.docx` converts to `report.pdf`. */
  lemma StemOfReport()
    ensures Stem("report.docx") == "report"
  {
    var b := "report.docx";
    assert '/' !in b;
    BaseNameOfPlainName(b);
    assert forall i :: 0 <= i < |b| && i != 6 ==> b[i] != '.';
    SplitExtAtOnlyDot(b, 6);
    assert b[..6] == "report";
  }

  /** A leading `.` does not start an extension: `.profile` is its own stem. */
  lemma StemOfDotFile()
    ensures Stem(".profile") == ".profile"
  {
    var p := ".profile";
    assert '/' !in p;
    BaseNameOfPlainName(p);
    assert !HasExtension(p) by {
      assert forall i :: 0 < i < |p| ==> p[i] != '.';
    }
    SplitExtAtLastDot(p);
  }

  /** `convert_office_to_pdf`: the intermediate path if the converter ran and that file exists. */
  function ConvertOfficeToPdf(inputPath: string, tempDir: string, ran: string -> bool, produced: set<string>): (r: Option<string>)
    ensures r.Some? <==> ran(inputPath) && IntermediatePath(tempDir, inputPath) in produced
    ensures r.Some? ==> r.value == IntermediatePath(tempDir, inputPath)
  {
    if !ran(inputPath) then None
    else
      var generated := IntermediatePath(tempDir, inputPath);
      if generated in produced then Some(generated) else None
  }

  /** One input file's contribution: converted, then the converted file appended to the merger. */
  function ConvertAndRead<P>(f: string, tempDir: string, ran: string -> bool, produced: set<string>, read: (string, string) -> Option<seq<P>>): Option<seq<P>>
  {
    match ConvertOfficeToPdf(f, tempDir, ran, produced)
    case None => None
    case Some(pdf) => read(f, pdf)
  }

  /** Every input file's contribution, for the merge functions. */
  function OfficeReader<P>(tempDir: string, ran: string -> bool, produced: string -> set<string>, read: (string, string) -> Option<seq<P>>): string -> Option<seq<P>>
  {
    f => ConvertAndRead(f, tempDir, ran, produced(f), read)
  }

  /** A file counts as failed exactly when its conversion failed or merging its PDF raised. */
  lemma OfficeFailureCases<P>(f: string, tempDir: string, ran: string -> bool, produced: string -> set<string>, read: (string, string) -> Option<seq<P>>)
    ensures OfficeReader(tempDir, ran, produced, read)(f).None? <==>
      || !ran(f)
      || IntermediatePath(tempDir, f) !in produced(f)
      || read(f, IntermediatePath(tempDir, f)).None?
  {
    var c := ConvertOfficeToPdf(f, tempDir, ran, produced(f));
    assert OfficeReader(tempDir, ran, produced, read)(f) == match c case None => None case Some(pdf) => read(f, pdf);
  }

  /** A file that converts and merges contributes the pages of its intermediate PDF as its own run left it. */
  lemma OfficeSuccessPages<P>(f: string, tempDir: string, ran: string -> bool, produced: string -> set<string>, read: (string, string) -> Option<seq<P>>)
    requires ran(f) && IntermediatePath(tempDir, f) in produced(f)
    ensures OfficeReader(tempDir, ran, produced, read)(f) == read(f, IntermediatePath(tempDir, f))
  {
    assert ConvertOfficeToPdf(f, tempDir, ran, produced(f)) == Some(IntermediatePath(tempDir, f));
  }

  /**
   * Three files where the converter fails for exactly one: the output merges
   * the other two in order and the report is two succeeded, one failed.
   */
  lemma OneOfThreeFails<P>(a: string, b: string, c: string, tempDir: string, ran: string -> bool, produced: string -> set<string>, read: (string, string) -> Option<seq<P>>)
    requires ran(a) && !ran(b) && ran(c)
    requires IntermediatePath(tempDir, a) in produced(a) && IntermediatePath(tempDir, c) in produced(c)
    requires read(a, IntermediatePath(tempDir, a)).Some? && read(c, IntermediatePath(tempDir, c)).Some?
    ensures var rd := OfficeReader(tempDir, ran, produced, read);
      && MergedPages([a, b, c], rd) == read(a, IntermediatePath(tempDir, a)).value + read(c, IntermediatePath(tempDir, c)).value
      && Failures([a, b, c], rd) == 1
  {
    var rd := OfficeReader(tempDir, ran, produced, read);
    OfficeFailureCases(a, tempDir, ran, produced, read);
    OfficeFailureCases(b, tempDir, ran, produced, read);
    OfficeFailureCases(c, tempDir, ran, produced, read);
    OfficeSuccessPages(a, tempDir, ran, produced, read);
    OfficeSuccessPages(c, tempDir, ran, produced, read);
    SecondOfThreeFails(a, b, c, rd);
  }

  /** Two inputs that differ only in extension share one intermediate path. */
  lemma SameStemSameIntermediate(tempDir: string, x: string, y: string)
    requires Stem(x) == Stem(y)
    ensures IntermediatePath(tempDir, x) == IntermediatePath(tempDir, y)
  {
  }

  /**
   * Two inputs with one stem (`report.doc`, `report.docx`) are converted to the
   * same path in turn; each is appended right after its own conversion, so the
   * output holds the first run's pages, then the second run's.
   */
  lemma SameStemConvertedInTurn<P>(x: string, y: string, tempDir: string, ran: string -> bool, produced: string -> set<string>, read: (string, string) -> Option<seq<P>>)
    requires Stem(x) == Stem(y) && ran(x) && ran(y)
    requires IntermediatePath(tempDir, x) in produced(x) && IntermediatePath(tempDir, x) in produced(y)
    requires read(x, IntermediatePath(tempDir, x)).Some? && read(y, IntermediatePath(tempDir, x)).Some?
    ensures var rd := OfficeReader(tempDir, ran, produced, read);
      && MergedPages([x, y], rd) == read(x, IntermediatePath(tempDir, x)).value + read(y, IntermediatePath(tempDir, x)).value
      && Failures([x, y], rd) == 0
  {
    var rd := OfficeReader(tempDir, ran, produced, read);
    SameStemSameIntermediate(tempDir, x, y);
    OfficeSuccessPages(x, tempDir, ran, produced, read);
    OfficeSuccessPages(y, tempDir, ran, produced, read);
    TwoAppended(x, y, rd);
  }

  /**
   * `handle_office_conversion` after the files are collected. The merger's
   * page count decides whether anything is written. `cleanedUp` says whether
   * the `finally` block runs, which closes the merger and explicitly cleans
   * up the temporary directory: the early return on an empty merger skips it.
   */
  method HandleOfficeConversion<P>(
    files: seq<string>, tempDir: string, ran: string -> bool, produced: string -> set<string>,
    read: (string, string) -> Option<seq<P>>, writeOk: bool)
    returns (r: BatchResult<P>, cleanedUp: bool)
    ensures var rd := OfficeReader(tempDir, ran, produced, read);
      var pages := MergedPages(files, rd);
      var failed := Failures(files, rd);
      && (files == [] ==> r == NoFilesSelected)
      && (files != [] && pages == [] ==> r == NothingWritten(failed))
      && (files != [] && pages != [] && writeOk ==> r == Written(pages, |files| - failed, failed))
      && (files != [] && pages != [] && !writeOk ==> r == CriticalError)
      && (files != [] ==> r == Settle(pages, |files|, failed, writeOk))
    ensures cleanedUp <==> r.Written? || r.CriticalError?
  {
    if files == [] {
      return NoFilesSelected, false;
    }
    var rd := OfficeReader(tempDir, ran, produced, read);
    var merger := new Merger<P>();
    var errorCount := 0;
    for i := 0 to |files|
      invariant merger.pages == MergedPages(files[..i], rd)
      invariant errorCount == Failures(files[..i], rd)
    {
      MergedPagesStep(files, i, rd);
      var tempPdf := ConvertOfficeToPdf(files[i], tempDir, ran, produced(files[i]));
      match tempPdf
      case Some(pdf) =>
        match read(files[i], pdf) {
          case Some(ps) =>
            merger.Append(ps);
          case None =>
            errorCount := errorCount + 1;
        }
      case None =>
        errorCount := errorCount + 1;
    }
    assert files[..|files|] == files;
    if |merger.pages| == 0 {
      return NothingWritten(errorCount), false;
    }
    if writeOk {
      r := Written(merger.pages, |files| - errorCount, errorCount);
    } else {
      r := CriticalError;
    }
    cleanedUp := true;
  }
}
