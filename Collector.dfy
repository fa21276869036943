/**
 * The sentinel-terminated collectors `get_file_names`, `get_image_files` and
 * `get_office_files`. The terminal is a sequence of input lines.
 */
module Collector {
  import opened Wrappers
  import opened Text
  import opened Validation

  /** A stripped line that lower-cases to `q` ends the collection: exactly `q` or `Q`. */
  function IsQuit(line: string): (r: bool)
    ensures r <==> line == "q" || line == "Q"
  {
    LowerCaseless(line, "q");
    Lower(line) == "q"
  }

  /** The names a collector returns when it reads `lines`. */
  function Collect(lines: seq<string>, fs: FileSystem, cat: Category): seq<string>
  {
    if lines == [] then []
    else
      var name := Strip(lines[0]);
      if IsQuit(name) then []
      else if Validate(fs, cat, name) == Pass then [name] + Collect(lines[1..], fs, cat)
      else Collect(lines[1..], fs, cat)
  }

  /** The position of the first line that is the sentinel, or `|lines|` if none is. */
  function QuitIndex(lines: seq<string>): (k: nat)
    ensures k <= |lines|
    ensures forall j :: 0 <= j < k ==> !IsQuit(Strip(lines[j]))
    ensures k < |lines| ==> IsQuit(Strip(lines[k]))
  {
    if lines == [] then 0
    else if IsQuit(Strip(lines[0])) then 0
    else 1 + QuitIndex(lines[1..])
  }

  /** Every line, stripped. */
  function StripAll(lines: seq<string>): (r: seq<string>)
    ensures |r| == |lines|
    ensures forall j :: 0 <= j < |lines| ==> r[j] == Strip(lines[j])
  {
    if lines == [] then [] else [Strip(lines[0])] + StripAll(lines[1..])
  }

  /** The names, in order, that the category's validator accepts. */
  function Accepted(names: seq<string>, fs: FileSystem, cat: Category): (r: seq<string>)
    ensures forall n :: n in r ==> n in names && Validate(fs, cat, n) == Pass
    ensures forall j :: 0 <= j < |names| && Validate(fs, cat, names[j]) == Pass ==> names[j] in r
  {
    if names == [] then []
    else if Validate(fs, cat, names[0]) == Pass then [names[0]] + Accepted(names[1..], fs, cat)
    else Accepted(names[1..], fs, cat)
  }

  /**
   * A collector returns, in input order, exactly those stripped lines that
   * come before the first sentinel and pass the validator.
   */
  lemma {:induction false} CollectIsAcceptedPrefix(lines: seq<string>, fs: FileSystem, cat: Category)
    ensures Collect(lines, fs, cat) == Accepted(StripAll(lines[..QuitIndex(lines)]), fs, cat)
  {
    if lines == [] {
    } else if IsQuit(Strip(lines[0])) {
      assert lines[..QuitIndex(lines)] == [];
    } else {
      CollectIsAcceptedPrefix(lines[1..], fs, cat);
      var pre := lines[..QuitIndex(lines)];
      assert pre[1..] == lines[1..][..QuitIndex(lines[1..])];
      assert StripAll(pre)[1..] == StripAll(pre[1..]);
    }
  }

  /** Every collected name is accepted by the validator and is some input line, stripped. */
  lemma {:induction false} CollectedAreValid(lines: seq<string>, fs: FileSystem, cat: Category, n: string)
    requires n in Collect(lines, fs, cat)
    ensures Validate(fs, cat, n) == Pass
    ensures exists j :: 0 <= j < QuitIndex(lines) && Strip(lines[j]) == n
  {
    CollectIsAcceptedPrefix(lines, fs, cat);
    var stripped := StripAll(lines[..QuitIndex(lines)]);
    assert n in stripped;
    var j :| 0 <= j < |stripped| && stripped[j] == n;
    assert Strip(lines[j]) == n;
  }

  /** Every line read before the first sentinel whose stripped form passes the validator is collected. */
  lemma ValidLinesAreCollected(lines: seq<string>, fs: FileSystem, cat: Category, j: nat)
    requires j < QuitIndex(lines) && Validate(fs, cat, Strip(lines[j])) == Pass
    ensures Strip(lines[j]) in Collect(lines, fs, cat)
  {
    CollectIsAcceptedPrefix(lines, fs, cat);
    var stripped := StripAll(lines[..QuitIndex(lines)]);
    assert stripped[j] == Strip(lines[j]);
  }

  /** A sentinel on the first line gives the empty list, whatever follows. */
  lemma QuitFirstIsEmpty(lines: seq<string>, fs: FileSystem, cat: Category)
    requires lines != [] && IsQuit(Strip(lines[0]))
    ensures Collect(lines, fs, cat) == []
  {
  }

  /** Lines after the first sentinel are never read. */
  lemma {:induction false} AfterQuitIgnored(lines: seq<string>, rest: seq<string>, fs: FileSystem, cat: Category)
    requires QuitIndex(lines) < |lines|
    ensures Collect(lines + rest, fs, cat) == Collect(lines, fs, cat)
  {
    if IsQuit(Strip(lines[0])) {
      assert (lines + rest)[0] == lines[0];
    } else {
      assert (lines + rest)[1..] == lines[1..] + rest;
      AfterQuitIgnored(lines[1..], rest, fs, cat);
    }
  }

  /** One step of reading: the line at `i` decides what it adds before the rest is read. */
  lemma CollectStep(lines: seq<string>, i: nat, fs: FileSystem, cat: Category)
    requires i < |lines|
    ensures Collect(lines[i..], fs, cat) ==
      if IsQuit(Strip(lines[i])) then []
      else if Validate(fs, cat, Strip(lines[i])) == Pass then [Strip(lines[i])] + Collect(lines[i + 1..], fs, cat)
      else Collect(lines[i + 1..], fs, cat)
  {
    assert lines[i..][0] == lines[i] && lines[i..][1..] == lines[i + 1..];
  }

  /** The first sentinel is at `i` when no line before `i` is one and line `i` is (or there is none). */
  lemma QuitIndexIs(lines: seq<string>, i: nat)
    requires i <= |lines|
    requires forall j :: 0 <= j < i ==> !IsQuit(Strip(lines[j]))
    requires i < |lines| ==> IsQuit(Strip(lines[i]))
    ensures QuitIndex(lines) == i
  {
  }

  /**
   * The loop shared by the three collectors: strip each line, stop at the
   * sentinel, append the lines the validator accepts. `quit` tells whether the
   * sentinel was read; without it the source's `input()` would hit end of input.
   */
  method CollectNames(lines: seq<string>, fs: FileSystem, cat: Category) returns (names: seq<string>, quit: bool)
    ensures names == Collect(lines, fs, cat)
    ensures quit <==> QuitIndex(lines) < |lines|
  {
    names, quit := [], false;
    var i := 0;
    while i < |lines|
      invariant 0 <= i <= |lines|
      invariant forall j :: 0 <= j < i ==> !IsQuit(Strip(lines[j]))
      invariant Collect(lines, fs, cat) == names + Collect(lines[i..], fs, cat)
      invariant !quit
    {
      var name := Strip(lines[i]);
      CollectStep(lines, i, fs, cat);
      if IsQuit(name) {
        quit := true;
        break;
      }
      var verdict := Validate(fs, cat, name);
      if verdict == Pass {
        names := names + [name];
      }
      i := i + 1;
    }
    QuitIndexIs(lines, i);
  }

  /** `get_file_names`: every name returned passes `validate_pdf_file`. */
  method GetFileNames(lines: seq<string>, fs: FileSystem, parses: string -> bool) returns (names: seq<string>, quit: bool)
    ensures names == Collect(lines, fs, PdfFiles(parses))
    ensures forall n :: n in names ==> ValidatePdfFile(fs, parses, n) == Pass
    ensures quit <==> QuitIndex(lines) < |lines|
  {
    names, quit := CollectNames(lines, fs, PdfFiles(parses));
    CollectIsAcceptedPrefix(lines, fs, PdfFiles(parses));
  }

  /** `get_image_files`: every name returned passes `validate_image_file`. */
  method GetImageFiles(lines: seq<string>, fs: FileSystem, decodes: string -> bool) returns (names: seq<string>, quit: bool)
    ensures names == Collect(lines, fs, ImageFiles(decodes))
    ensures forall n :: n in names ==> ValidateImageFile(fs, decodes, n) == Pass
    ensures quit <==> QuitIndex(lines) < |lines|
  {
    names, quit := CollectNames(lines, fs, ImageFiles(decodes));
    CollectIsAcceptedPrefix(lines, fs, ImageFiles(decodes));
  }

  /** `get_office_files`: every name returned passes `validate_office_file`. */
  method GetOfficeFiles(lines: seq<string>, fs: FileSystem, extensions: seq<string>) returns (names: seq<string>, quit: bool)
    ensures names == Collect(lines, fs, OfficeFiles(extensions))
    ensures forall n :: n in names ==> ValidateOfficeFile(fs, extensions, n) == Pass
    ensures quit <==> QuitIndex(lines) < |lines|
  {
    names, quit := CollectNames(lines, fs, OfficeFiles(extensions));
    CollectIsAcceptedPrefix(lines, fs, OfficeFiles(extensions));
  }
}
