# PDF Master, modelled in Dafny

PDF Master is a single-file terminal program, `Pdf_merger.py`. It shows a
menu and offers several features:

- merging PDF files;
- turning a blog post into a PDF;
- a "Create PDF" sub-menu that converts images or Word, Excel and PowerPoint
  files into one PDF.

This project models the program's decision logic:

- **Input checks.** How a typed filename is stripped, validated and
  collected until the user types `q`, and how the output filename is chosen.
- **Per-file failures.** Which files end up in a merged or converted PDF,
  and how the success and failure counts come out.
- **Office conversion.** What name the office converter's output is looked
  for under.
- **Blog pages.** The blog-URL heuristic and the style block put in front of
  a downloaded article.
- **Menus.** How menu answers move the user between the two menus and out of
  the program.

The program's outside world becomes parameters:

- the terminal is a sequence of input lines;
- the working directory is the set of file names present;
- each library call is a function from a file name to its outcome:
  - whether PyPDF2 can read the file;
  - whether PIL can open and verify the image, and its colour mode;
  - whether the LibreOffice subprocess succeeded;
  - which pages an append adds;
- whether the final write succeeds is a boolean.

Modules, one file each:

- `Wrappers`: `Option` and `Outcome`.
- `Text`: strings:
  - Python's `strip` and ASCII `lower`;
  - `endswith` and `in`;
  - `os.path.basename`, `splitext` and `join` on POSIX.
- `Validation`: the three filename validators.
- `Collector`: the three `q`-terminated filename collectors.
- `OutputName`: `get_output_filename`.
- `Merge`: the `PdfMerger` accumulator as a class, and `merge_pdfs`.
- `Images`: `convert_images_to_pdf`.
- `Office`: `convert_office_to_pdf` and `handle_office_conversion`.
- `Blog`: `is_blog_url` and `add_pdf_styles`.
- `Menu`: the main loop, as a state machine.
- `Drivers`: the feature drivers `pdf_merger`, `image_to_pdf` and the three
  office drivers. Each sequences a collector, the output-name prompt and a
  batch operation on one stream of input lines.

Each loop of the program becomes a method with a loop. That method is proved
equal to a recursive specification function, which lemmas then
characterise.

## Model

| member | source | states |
|---|---|---|
| Text.TrimLeftSpec | Pdf_merger.py:73 | `lstrip` keeps a suffix of the line; everything it drops is Python whitespace; what remains does not start with whitespace |
| Text.TrimRightSpec | Pdf_merger.py:73 | `rstrip` keeps a prefix of the line; everything it drops is whitespace; what remains does not end with whitespace |
| Text.StripSpec | Pdf_merger.py:73 | `strip` is a contiguous slice of the line with only whitespace before and after it, and neither of its ends is whitespace |
| Text.LowerCharCaseless | Pdf_merger.py:75 | two characters lower to the same character exactly when they are equal or the same ASCII letter in different cases (the upper-case one 32 code points below the lower-case one) |
| Text.LowerCaseless | Pdf_merger.py:75 | two strings lower to the same string exactly when they have the same length and agree position by position up to ASCII case |
| Text.LowerIdempotent | Pdf_merger.py:75 | a lowered string holds no upper-case ASCII letter, and lowering it again changes nothing |
| Text.LowerKeepsPdfSuffix | Pdf_merger.py:46 | a name ending in `.pdf` still ends in `.pdf` once lowered |
| Text.LowerSlice | Pdf_merger.py:159 | lowering a slice is slicing the lowered string |
| Text.Contains | Pdf_merger.py:166 | `t in s` holds exactly when `t` occurs in `s` at some position |
| Text.BaseName | Pdf_merger.py:334 | `basename` has no `/`, is a suffix of the path, and is preceded by `/` whenever it is not the whole path |
| Text.BaseNameOfPlainName | Pdf_merger.py:334 | the basename of a name without `/` is the name itself |
| Text.SplitExt | Pdf_merger.py:334 | root plus extension is the name again; the extension is empty or one `.` followed by no other `.` |
| Text.SplitExtAtLastDot | Pdf_merger.py:334 | the extension is non-empty exactly when some `.` of the name has a character other than `.` before it |
| Text.SplitExtAtOnlyDot | Pdf_merger.py:334 | a name whose only `.` is at position `k > 0` splits into the part before `k` and the part from `k` |
| Text.LastDot | Pdf_merger.py:334 | the position of the last `.`, or none exactly when the name has no `.` |
| Text.Join | Pdf_merger.py:335 | the joined path's basename is the name; it is `dir + name` when `dir` is empty or ends in `/`, otherwise `dir + "/" + name` |
| Text.JoinSuffix | Pdf_merger.py:335 | joining a `/`-free name made of two parts is the directory, an optional `/`, then the two parts |
| Validation.ValidatePdfFile | Pdf_merger.py:87-96 | passes exactly the existing, directory-free names that end in `.pdf` in any case and parse; each error is raised exactly when the earlier checks pass and its own check fails |
| Validation.ValidateImageFile | Pdf_merger.py:243-256 | passes exactly the existing, directory-free names that end in one of the five image extensions and decode; the first failing check gives the error |
| Validation.ValidateOfficeFile | Pdf_merger.py:294-301 | passes exactly the existing, directory-free names with one of the given extensions; it never reports a corrupt file |
| Validation.PathRejectedFirst | Pdf_merger.py:89-90 | every validator refuses a name with a directory part, before anything else |
| Validation.MissingBeforeExtension | Pdf_merger.py:91-92 | a missing name is reported as not found, never as having the wrong extension |
| Validation.ValidateAccepts | Pdf_merger.py:87-96 | one statement for all three validators: pass iff no directory part, exists, accepted extension, and content check (PDF and image only) |
| Collector.IsQuit | Pdf_merger.py:75 | a stripped line ends the collection exactly when it is `q` or `Q` |
| Collector.QuitIndex | Pdf_merger.py:72-76 | the first line that strips to `q` in any case, or the number of lines when there is none |
| Collector.StripAll | Pdf_merger.py:73 | each line, stripped, in place |
| Collector.Accepted | Pdf_merger.py:78-80 | the names kept are exactly the input names that pass the validator: each kept name is an input that passes, and each input that passes is kept |
| Collector.CollectIsAcceptedPrefix | Pdf_merger.py:67-85 | a collector returns, in order, the stripped lines before the first `q` that pass the validator |
| Collector.CollectedAreValid | Pdf_merger.py:78-80 | every collected name passes the validator and is a stripped input line read before the `q` |
| Collector.ValidLinesAreCollected | Pdf_merger.py:72-80 | every line read before the first `q` whose stripped form passes the validator is in the collected list |
| Collector.QuitFirstIsEmpty | Pdf_merger.py:75-76 | a `q` on the first line gives the empty list |
| Collector.AfterQuitIgnored | Pdf_merger.py:75-76 | lines after the first `q` are never read |
| Collector.CollectStep | Pdf_merger.py:72-82 | proof step for `CollectNames`'s loop (one unfolding of `Collect`): one round of the loop: the line read decides whether the collection stops, gains the stripped name, or goes on unchanged |
| Collector.QuitIndexIs | Pdf_merger.py:72-76 | the first `q` is at `i` when no earlier line is one and line `i` is (or there are no more lines) |
| Collector.CollectNames | Pdf_merger.py:72-85 | the shared loop returns `Collect` of the lines and says whether a `q` was read |
| Collector.GetFileNames | Pdf_merger.py:67-85 | `get_file_names` returns `Collect` under the PDF validator; every name it returns passes `validate_pdf_file` |
| Collector.GetImageFiles | Pdf_merger.py:223-241 | `get_image_files` returns `Collect` under the image validator; every name passes `validate_image_file` |
| Collector.GetOfficeFiles | Pdf_merger.py:303-321 | `get_office_files` returns `Collect` under the office validator; every name passes `validate_office_file` |
| OutputName.FirstFitSpec | Pdf_merger.py:48-51 | the result is the first name without a directory part, all earlier ones have one, and none means all have one |
| OutputName.WithPdfSuffixSpec | Pdf_merger.py:46-47 | the `.pdf` rule always gives a name ending in `.pdf` in any case; it keeps a name that already does and appends exactly `.pdf` to any other |
| OutputName.WithPdfSuffixIdempotent | Pdf_merger.py:46-47 | applying the rule twice is applying it once |
| OutputName.WithPdfSuffixKeepsDirPart | Pdf_merger.py:46-48 | the rule neither adds nor removes a directory part |
| OutputName.BlankMeansDefault | Pdf_merger.py:44-45 | a blank answer means the default name, under the `.pdf` rule |
| OutputName.CandidateEndsInPdf | Pdf_merger.py:43-47 | every candidate ends in `.pdf` in any case |
| OutputName.OutputNameFirstFit | Pdf_merger.py:40-51 | the settled name is the first answer's candidate without a directory part, every earlier candidate had one, and running out means every candidate had one |
| OutputName.OutputNameSpec | Pdf_merger.py:40-51 | the settled name ends in `.pdf` in any case and has no directory part |
| OutputName.BlankAnswerSettlesOnDefault | Pdf_merger.py:43-51 | a blank first answer settles at once on a default that ends in `.pdf` and has no directory part |
| OutputName.FirstFitStep | Pdf_merger.py:48-51 | proof step for `GetOutputFilename`'s loop (one unfolding of `FirstFit`): one prompt round: a candidate without a directory part is returned, otherwise the prompt asks again |
| OutputName.GetOutputFilename | Pdf_merger.py:40-51 | the prompt loop returns `OutputName` of the answers; a returned name ends in `.pdf` and has no directory part |
| Merge.Merger.constructor | Pdf_merger.py:100 | a new merger holds no page |
| Merge.Merger.Append | Pdf_merger.py:105 | appending adds the file's pages after those already held, and changes nothing else |
| Merge.Settle | Pdf_merger.py:371-384 | the office handler writes nothing exactly when the merger is empty; it reports stats exactly when the merger is non-empty and the write succeeds, and then the output is the merged pages, `failed` is the error count and `succeeded` is the number of files minus it; an empty merger carries the error count |
| Merge.Failures | Pdf_merger.py:101-109 | the failure count never exceeds the number of files |
| Merge.CountsAddUp | Pdf_merger.py:115 | failed and appended files together are all the files: the "succeeded" figure is the number of appended files |
| Merge.MergedPagesAppend | Pdf_merger.py:103-109 | merging two lists in turn gives the first list's pages, then the second's, and the failures add up |
| Merge.MergedPagesStep | Pdf_merger.py:103-109 | proof step for the merge loops (one unfolding of `MergedPages` and `Failures`): one more file: its pages, if it appends, follow those already merged; otherwise the failure count goes up by one |
| Merge.TwoAppended | Pdf_merger.py:103-106 | two files that both append: the first's pages, then the second's, and no failure |
| Merge.FailedFileAddsNothing | Pdf_merger.py:107-109 | a file whose append raises adds no page and exactly one failure, wherever it stands |
| Merge.AllAppendedKeepsOrder | Pdf_merger.py:103-106 | when every append succeeds, each file's pages sit in list order and nothing fails |
| Merge.NoFailures | Pdf_merger.py:103-109 | no failing file, no failure counted |
| Merge.OneGoodOneCorrupt | Pdf_merger.py:98-119 | a good file then a corrupt one: the output is the first file's pages; 1 succeeded, 1 failed |
| Merge.SecondOfThreeFails | Pdf_merger.py:103-109 | three files, only the second failing: the first's pages then the third's, and one failure |
| Merge.MergePdfs | Pdf_merger.py:98-119 | the write is always attempted; on success the output holds the merged pages with the succeeded/failed counts, and a failed write is a critical error with no stats |
| Office.Stem | Pdf_merger.py:334 | the stem has no `/` |
| Office.IntermediateName | Pdf_merger.py:334 | the converter's output name has no `/` |
| Office.IntermediateBaseName | Pdf_merger.py:334-335 | the looked-for file's basename is the stem plus `.pdf`, and it ends in `.pdf` |
| Office.IntermediateInTempDir | Pdf_merger.py:335 | the looked-for file lies directly in the temporary directory: `temp_dir` then (a `/` if needed) then stem plus `.pdf` |
| Office.StemSpec | Pdf_merger.py:334 | the stem is the input's basename without its extension; the extension is empty or a single `.`-led part, and it is non-empty exactly when some `.` of the basename has a non-`.` character before it |
| Office.StemOfReport | Pdf_merger.py:334 | `report.docx` has the stem `report` |
| Office.StemOfDotFile | Pdf_merger.py:334 | a leading `.` starts no extension: `.profile` is its own stem |
| Office.SameStemSameIntermediate | Pdf_merger.py:334-335 | inputs with the same stem (say `a.doc` and `a.docx`) are looked for under the same intermediate path |
| Office.ConvertOfficeToPdf | Pdf_merger.py:323-342 | a path comes back exactly when the converter ran and the expected file exists, and it is then the expected path |
| Office.OfficeFailureCases | Pdf_merger.py:359-369 | a file counts as failed exactly when the converter failed, produced no expected file, or its PDF could not be appended |
| Office.OfficeSuccessPages | Pdf_merger.py:360-364 | a converted file contributes the pages of its intermediate PDF as its own conversion left it |
| Office.OneOfThreeFails | Pdf_merger.py:359-379 | three files, the converter failing for the second: the first's and the third's pages in order, and one failure |
| Office.SameStemConvertedInTurn | Pdf_merger.py:359-364 | two inputs with one stem are converted to the same path in turn; each is appended right after its own conversion, so the output holds the first run's pages, then the second run's |
| Office.HandleOfficeConversion | Pdf_merger.py:356-384 | no files: nothing happens; no page merged: nothing is written and the `finally` block is skipped; otherwise the write gives the merged pages with the counts, or a critical error; the `finally` block runs exactly in the last two cases |
| Images.PdfModeSpec | Pdf_merger.py:265-266 | no image is left in `RGBA` mode; any other mode is kept |
| Images.SurvivorsAreOpened | Pdf_merger.py:262-270 | every image kept is an input that opened, in its PDF mode; no more images than paths |
| Images.SurvivorsAppend | Pdf_merger.py:262-267 | the images kept keep input order |
| Images.FailingImageSkipped | Pdf_merger.py:269-270 | an image that fails to open is skipped, wherever it stands |
| Images.NoneOpenNoSurvivor | Pdf_merger.py:272-274 | when no image opens, nothing is kept |
| Images.ConvertImagesToPdf | Pdf_merger.py:258-291 | no image kept: a warning and no save; otherwise the first kept image is the base page, the others follow in order, and the count is the number kept; a failed save reports failure |
| Blog.AnyIndicator | Pdf_merger.py:166-167 | true exactly when some indicator occurs in the path or the network location |
| Blog.IsBlogUrl | Pdf_merger.py:156-167 | true exactly when one of the six indicators occurs in the lower-cased path or in the network location as written |
| Blog.BlogHostIsBlog | Pdf_merger.py:163-167 | a Medium, WordPress or Blogspot host is a blog whatever the path |
| Blog.PathCaseIgnored | Pdf_merger.py:159 | any six characters of the raw path that lower to `/blog/` make the URL a blog |
| Blog.UpperCaseBlogPath | Pdf_merger.py:159 | an upper-case `/BLOG/` in the path counts |
| Blog.HostCaseKept | Pdf_merger.py:166 | the network location is not lower-cased: `MEDIUM.COM` with path `/` is not a blog |
| Blog.AddPdfStyles | Pdf_merger.py:195-207 | the page is the style block, a newline, then the article unchanged |
| Blog.AddPdfStylesInjective | Pdf_merger.py:207 | different articles give different pages: the article can be read back |
| Menu.ExitOnlyFromMain | Pdf_merger.py:435-437 | only `4` on the main menu ends the program; in the sub-menu only `5` returns to the main menu |
| Menu.InvalidKeepsScreen | Pdf_merger.py:432-433 | an unrecognised answer keeps the current screen; recognised answers that keep it are never treated as invalid |
| Menu.NothingAfterExit | Pdf_merger.py:435-437 | answers after the exit are never read |
| Menu.ExitEndsWithGoodbye | Pdf_merger.py:412-441 | the program exits exactly when a goodbye happens, the goodbye is the last action, and it happens nowhere else |
| Menu.SubMenuActionsFollowEntry | Pdf_merger.py:419-429 | an image or office conversion always comes after an entry into the Create PDF sub-menu |
| Menu.RunMenu | Pdf_merger.py:411-441 | the main loop reaches `Run`'s screen with `Run`'s actions, reads one answer per action, and reads them all unless it exits |
| Drivers.PdfMerger | Pdf_merger.py:54-65 | input that ends before the `q` ends the driver; no valid PDF returns to the menu without a prompt; otherwise the output name is settled from the lines after the `q` (default `merged.pdf`) and the collected files are merged under it |
| Drivers.ImageToPdf | Pdf_merger.py:210-221 | the same sequence with the image collector, the default `images.pdf`, and the conversion of the images that open |
| Drivers.OfficeToPdf | Pdf_merger.py:344-354 | the same sequence with the kind's extensions and default name, then the conversion loop; the `finally` block runs exactly when a write was attempted |
| Drivers.DefaultNamesArePlain | Pdf_merger.py:386-408 | every default output name ends in `.pdf` and has no directory part |
| Drivers.PlainPdfName | Pdf_merger.py:46-48 | a `/`-free name written with a `.pdf` ending passes the `.pdf` rule and the directory check |
| Drivers.BlankAnswerGivesDefault | Pdf_merger.py:386-408 | a blank answer at an office driver's prompt gives exactly that kind's default name |
| Drivers.EndsWithBoth | Pdf_merger.py:300 | a name that ends in two suffixes, the shorter first, shows the longer ending in the shorter |
| Drivers.ExtensionsOfKindsUnrelated | Pdf_merger.py:386-408 | no extension of one office kind ends in an extension of another |
| Drivers.KindsAcceptDisjointFiles | Pdf_merger.py:294-301 | a file one office driver accepts is refused by each other office driver for its extension |

## Definitions

The functions the contracts above are stated in, with the source they model.

| definition | source | models |
|---|---|---|
| Text.IsSpace, Text.TrimLeft, Text.TrimRight, Text.Strip | Pdf_merger.py:73 | `str.strip()` with Python's whitespace set |
| Text.LowerChar, Text.Lower | Pdf_merger.py:75 | `str.lower()` on ASCII letters |
| Text.EndsWith, Text.EndsWithAny | Pdf_merger.py:46 | `str.endswith` with one suffix or a tuple |
| Text.HasDirPart | Pdf_merger.py:48 | `os.path.dirname(name)` is non-empty: the name contains a `/` |
| Text.HasExtension | Pdf_merger.py:334 | `splitext` finds an extension |
| Validation.Exists | Pdf_merger.py:91 | `os.path.exists` on the working directory |
| Validation.Validate | Pdf_merger.py:78 | the validator a collector calls |
| Collector.Collect | Pdf_merger.py:72-82 | the names a collector returns |
| OutputName.WithPdfSuffix | Pdf_merger.py:46-47 | the `.pdf` rule |
| OutputName.Candidate, OutputName.Candidates | Pdf_merger.py:43-47 | each answer stripped, defaulted and suffixed |
| OutputName.FirstFit, OutputName.OutputName | Pdf_merger.py:48-51 | the first candidate without a directory part |
| Merge.MergedPages, Merge.Appended | Pdf_merger.py:103-109 | the merger's pages and the files appended |
| Images.PdfMode, Images.Survivors | Pdf_merger.py:262-267 | the images kept, in their PDF mode |
| Office.IntermediatePath | Pdf_merger.py:335 | where the converter's output is looked for |
| Office.ConvertAndRead, Office.OfficeReader | Pdf_merger.py:360-369 | one input converted, then its PDF appended |
| Office.OfficeKind | Pdf_merger.py:386-408 | the three office drivers' labels, extensions and default names |
| Menu.Step, Menu.Run | Pdf_merger.py:413-439 | one menu answer, and a sequence of them |
| Drivers.AfterNaming, Drivers.AfterQuit | Pdf_merger.py:54-65 | the prompt's outcome and the lines it reads |

## Left out

- Terminal output, screen clearing and the "Press Enter to continue" pauses
  are left out. They have no effect on the program's decisions.
- End of input is modelled as running out of lines. A collector then reports
  `quit` false, and `GetOutputFilename` returns `None`. Python would raise
  `EOFError` instead.
- `blog_to_pdf`, `get_valid_url` and `convert_blog` are left out. They are
  network fetching, readability extraction, HTML-to-PDF rendering and URL
  syntax checking by the `validators` package, all of them foreign calls.
  Only their decidable parts, `is_blog_url` and `add_pdf_styles`, are
  modelled.
- `IsBlogUrl` takes the network location and the path already split.
  `urlparse` is a foreign call.
- Library internals are outside the model: PyPDF2 parsing and writing, PIL
  decoding, and the LibreOffice subprocess. All of them are parameters. An
  append that raises adds no page. A partial append by PyPDF2 is not
  modelled.
- `Merge.Merger` stands for PyPDF2's `PdfMerger`. Only its page list is
  modelled. `merger.close()`, the `finally` blocks that close images, and the
  removal of a partial output file are left out because they affect
  resources, not results. `HandleOfficeConversion` still reports whether its
  `finally` block runs. The early return on an empty merger skips it: the
  merger is not closed and `temp_dir.cleanup()` is not called, so the
  temporary directory is removed only when `TemporaryDirectory`'s finaliser
  runs.
- `Images.ConvertImagesToPdf` does not model the `resolution=100.0`
  argument. It is a floating-point rendering option.
- `MergePdfs`, `ConvertImagesToPdf` and `HandleOfficeConversion` take the
  collected list as a parameter. The drivers in `Drivers` do the collecting,
  the emptiness check and the output-name prompt before calling them.
- OfficeKind.Label: only appears in printed messages and in the text of the
  converter's `RuntimeError`, so no contract mentions it.
- The temporary directory is the parameter `tempDir`, and `produced` gives
  the files in it right after each input is converted. `read(input, pdf)`
  gives the pages as that input's conversion left `pdf`. The contents left
  by earlier conversions and the files removed by later ones are not
  modelled.
- Text.Lower: maps only ASCII letters. Every pattern the program compares
  lowered text with is lower-case ASCII. Python's full Unicode `lower` can
  turn a non-ASCII character into one of these letters only for the Kelvin
  sign, whose `k` appears in no pattern, and for dotted capital I, whose
  `i` it follows with a combining mark. So the comparisons come out the same.
- Paths follow POSIX: `/` is the only separator. Windows drive letters and
  `\` are not modelled.
- `Menu.RunMenu` is driven by the menu answers only. The answers each
  feature reads are modelled by that feature's own operation.
