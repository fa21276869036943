/**
 * The feature drivers `pdf_merger`, `image_to_pdf`, `word_to_pdf`,
 * `excel_to_pdf` and `powerpoint_to_pdf`. Each reads one stream of input
 * lines. A collector reads filenames up to the `q` line. If it collected
 * nothing, the driver returns. Otherwise the output-name prompt reads the lines
 * after the `q`, and the batch operation runs on the collected files. Input
 * that ends while a prompt is still waiting stops the driver.
 */
module Drivers {
  import opened Wrappers
  import opened Text
  import opened Validation
  import opened Collector
  import OutputName
  import opened Merge
  import opened Images
  import opened Office

  /** How a feature driver ends. */
  datatype Driven<R> =
    | InputEnded                        // `input()` found no more lines
    | NothingSelected                   // no valid file was collected; back to the menu
    | Finished(output: string, result: R)

  /** The driver's end once the output-name prompt has settled (or not) and the batch gave `result`. */
  function AfterNaming<R>(name: Option<string>, result: R): Driven<R>
  {
    if name.None? then InputEnded else Finished(name.value, result)
  }

  /** The lines the output-name prompt reads: those after the collector's `q`. */
  function AfterQuit(lines: seq<string>): seq<string>
    requires QuitIndex(lines) < |lines|
  {
    lines[QuitIndex(lines) + 1..]
  }

  /**
   * `pdf_merger`: collect PDF names, return if there are none, ask for the
   * output name (default `merged.pdf`), then `merge_pdfs`.
   */
  method PdfMerger<P>(lines: seq<string>, fs: FileSystem, parses: string -> bool, read: string -> Option<seq<P>>, writeOk: bool)
    returns (d: Driven<BatchResult<P>>)
    ensures var files := Collect(lines, fs, PdfFiles(parses));
      && (QuitIndex(lines) == |lines| ==> d == InputEnded)
      && (QuitIndex(lines) < |lines| && files == [] ==> d == NothingSelected)
      && (QuitIndex(lines) < |lines| && files != [] ==>
            d == AfterNaming(OutputName.OutputName(AfterQuit(lines), "merged.pdf"),
                             if writeOk then Written(MergedPages(files, read), |files| - Failures(files, read), Failures(files, read))
                             else CriticalError))
  {
    var files, quit := GetFileNames(lines, fs, parses);
    if !quit {
      return InputEnded;
    }
    if files == [] {
      return NothingSelected;
    }
    var name := OutputName.GetOutputFilename(AfterQuit(lines), "merged.pdf");
    if name.None? {
      return InputEnded;
    }
    var r := MergePdfs(files, read, writeOk);
    d := Finished(name.value, r);
  }

  /**
   * `image_to_pdf`: collect image names, return if there are none, ask for
   * the output name (default `images.pdf`), then `convert_images_to_pdf`.
   */
  method ImageToPdf(lines: seq<string>, fs: FileSystem, decodes: string -> bool, open: string -> Option<string>, saveOk: bool)
    returns (d: Driven<ImageResult>)
    ensures var files := Collect(lines, fs, ImageFiles(decodes));
      var s := Survivors(files, open);
      && (QuitIndex(lines) == |lines| ==> d == InputEnded)
      && (QuitIndex(lines) < |lines| && files == [] ==> d == NothingSelected)
      && (QuitIndex(lines) < |lines| && files != [] ==>
            d == AfterNaming(OutputName.OutputName(AfterQuit(lines), "images.pdf"),
                             if s == [] then NoImagesToConvert
                             else if saveOk then ImagesSaved(s[0], s[1..], |s|)
                             else SaveFailed))
  {
    var files, quit := GetImageFiles(lines, fs, decodes);
    if !quit {
      return InputEnded;
    }
    if files == [] {
      return NothingSelected;
    }
    var name := OutputName.GetOutputFilename(AfterQuit(lines), "images.pdf");
    if name.None? {
      return InputEnded;
    }
    var r := ConvertImagesToPdf(files, open, saveOk);
    d := Finished(name.value, r);
  }

  /**
   * `word_to_pdf`, `excel_to_pdf` and `powerpoint_to_pdf`: the office handler
   * with the kind's extensions and default output name. `cleanedUp` says
   * whether the handler's `finally` block ran.
   */
  method OfficeToPdf<P>(
    kind: OfficeKind, lines: seq<string>, fs: FileSystem, tempDir: string,
    ran: string -> bool, produced: string -> set<string>, read: (string, string) -> Option<seq<P>>, writeOk: bool)
    returns (d: Driven<BatchResult<P>>, cleanedUp: bool)
    ensures var files := Collect(lines, fs, OfficeFiles(kind.Extensions()));
      var rd := OfficeReader(tempDir, ran, produced, read);
      && (QuitIndex(lines) == |lines| ==> d == InputEnded)
      && (QuitIndex(lines) < |lines| && files == [] ==> d == NothingSelected)
      && (QuitIndex(lines) < |lines| && files != [] ==>
            d == AfterNaming(OutputName.OutputName(AfterQuit(lines), kind.DefaultOutput()),
                             Settle(MergedPages(files, rd), |files|, Failures(files, rd), writeOk)))
    ensures cleanedUp <==> d.Finished? && (d.result.Written? || d.result.CriticalError?)
  {
    var files, quit := GetOfficeFiles(lines, fs, kind.Extensions());
    if !quit {
      return InputEnded, false;
    }
    if files == [] {
      return NothingSelected, false;
    }
    var name := OutputName.GetOutputFilename(AfterQuit(lines), kind.DefaultOutput());
    if name.None? {
      return InputEnded, false;
    }
    var r;
    r, cleanedUp := HandleOfficeConversion(files, tempDir, ran, produced, read, writeOk);
    d := Finished(name.value, r);
  }

  /** Every driver's default output name ends in `.pdf` and has no directory part. */
  lemma DefaultNamesArePlain(kind: OfficeKind)
    ensures EndsWith(Lower("merged.pdf"), ".pdf") && !HasDirPart("merged.pdf")
    ensures EndsWith(Lower("images.pdf"), ".pdf") && !HasDirPart("images.pdf")
    ensures EndsWith(Lower(kind.DefaultOutput()), ".pdf") && !HasDirPart(kind.DefaultOutput())
  {
    PlainPdfName("merged.pdf");
    PlainPdfName("images.pdf");
    match kind
    case Word => PlainPdfName("word_merged.pdf");
    case Excel => PlainPdfName("excel_merged.pdf");
    case PowerPoint => PlainPdfName("powerpoint_merged.pdf");
  }

  /** A `/`-free name typed with a `.pdf` ending. */
  lemma PlainPdfName(d: string)
    requires |d| >= 4 && d[|d| - 4..] == ".pdf" && forall k :: 0 <= k < |d| ==> d[k] != '/'
    ensures EndsWith(Lower(d), ".pdf") && !HasDirPart(d)
  {
    LowerKeepsPdfSuffix(d);
  }

  /** A blank answer at the office output prompt gives exactly the kind's default name. */
  lemma BlankAnswerGivesDefault(kind: OfficeKind, lines: seq<string>)
    requires lines != [] && Strip(lines[0]) == ""
    ensures OutputName.OutputName(lines, kind.DefaultOutput()) == Some(kind.DefaultOutput())
  {
    DefaultNamesArePlain(kind);
    OutputName.BlankAnswerSettlesOnDefault(lines, kind.DefaultOutput());
  }

  /** A name that ends in both `a` and `b`, the shorter first, shows `b` ending in `a`. */
  lemma EndsWithBoth(s: string, a: string, b: string)
    requires EndsWith(s, a) && EndsWith(s, b) && |a| <= |b|
    ensures EndsWith(b, a)
  {
    assert b[|b| - |a|..] == s[|s| - |a|..];
  }

  /** No extension of one office kind ends in an extension of another. */
  lemma ExtensionsOfKindsUnrelated(k1: OfficeKind, k2: OfficeKind, e1: string, e2: string)
    requires k1 != k2 && e1 in k1.Extensions() && e2 in k2.Extensions()
    ensures |e1| <= |e2| ==> !EndsWith(e2, e1)
    ensures |e2| <= |e1| ==> !EndsWith(e1, e2)
  {
    assert e1[|e1| - 3] != e2[|e2| - 3];
  }

  /** A file accepted by one office driver is refused by the other two for its extension. */
  lemma KindsAcceptDisjointFiles(k1: OfficeKind, k2: OfficeKind, fs: FileSystem, name: string)
    requires k1 != k2
    requires ValidateOfficeFile(fs, k1.Extensions(), name) == Pass
    ensures ValidateOfficeFile(fs, k2.Extensions(), name) == Fail(UnsupportedExtension)
  {
    var l := Lower(name);
    var i :| 0 <= i < |k1.Extensions()| && EndsWith(l, k1.Extensions()[i]);
    var e1 := k1.Extensions()[i];
    forall j | 0 <= j < |k2.Extensions()|
      ensures !EndsWith(l, k2.Extensions()[j])
    {
      var e2 := k2.Extensions()[j];
      ExtensionsOfKindsUnrelated(k1, k2, e1, e2);
      if EndsWith(l, e2) {
        if |e1| <= |e2| {
          EndsWithBoth(l, e1, e2);
        } else {
          EndsWithBoth(l, e2, e1);
        }
      }
    }
  }
}
