/**
 * `get_output_filename`: prompt until the answer, after the default and the
 * `.pdf` rule are applied, has no directory part.
 */
module OutputName {
  import opened Wrappers
  import opened Text

  /** The `.pdf` rule: a name that ends in `.pdf` in any case is kept, any other gets `.pdf` appended. */
  function WithPdfSuffix(name: string): string
  {
    if EndsWith(Lower(name), ".pdf") then name else name + ".pdf"
  }

  /** What one answer turns into: stripped, the default if blank, then the `.pdf` rule. */
  function Candidate(line: string, defaultName: string): string
  {
    var name := Strip(line);
    WithPdfSuffix(if name == "" then defaultName else name)
  }

  /** The candidate of each answer, in order. */
  function Candidates(lines: seq<string>, defaultName: string): (r: seq<string>)
    ensures |r| == |lines|
    ensures forall k :: 0 <= k < |lines| ==> r[k] == Candidate(lines[k], defaultName)
  {
    seq(|lines|, k requires 0 <= k < |lines| => Candidate(lines[k], defaultName))
  }

  /** The first name without a directory part, if any. */
  function FirstFit(names: seq<string>): Option<string>
  {
    if names == [] then None
    else if HasDirPart(names[0]) then FirstFit(names[1..])
    else Some(names[0])
  }

  /** The name the prompt settles on when the answers are `lines`; `None` if they run out first. */
  function OutputName(lines: seq<string>, defaultName: string): Option<string>
  {
    FirstFit(Candidates(lines, defaultName))
  }

  /** `FirstFit` picks the first name without a directory part; `None` means every name has one. */
  lemma {:induction false} FirstFitSpec(names: seq<string>)
    ensures FirstFit(names).Some? ==>
      exists j :: && 0 <= j < |names| && FirstFit(names).value == names[j] && !HasDirPart(names[j])
                  && forall k :: 0 <= k < j ==> HasDirPart(names[k])
    ensures FirstFit(names).None? ==> forall k :: 0 <= k < |names| ==> HasDirPart(names[k])
  {
    if names != [] && HasDirPart(names[0]) {
      var rest := names[1..];
      FirstFitSpec(rest);
      if FirstFit(rest).Some? {
        var j :| && 0 <= j < |rest| && FirstFit(rest).value == rest[j] && !HasDirPart(rest[j])
                  && forall k :: 0 <= k < j ==> HasDirPart(rest[k]);
        assert names[j + 1] == rest[j];
        assert forall k :: 1 <= k < j + 1 ==> names[k] == rest[k - 1];
      } else {
        assert forall k :: 1 <= k < |names| ==> names[k] == rest[k - 1];
      }
    } else if names != [] {
      assert FirstFit(names).value == names[0];
    }
  }

  /**
   * The `.pdf` rule always yields a name ending in `.pdf` in any case; it
   * leaves a name that already does unchanged and appends exactly `.pdf` to
   * any other.
   */
  lemma WithPdfSuffixSpec(name: string)
    ensures EndsWith(Lower(WithPdfSuffix(name)), ".pdf")
    ensures EndsWith(Lower(name), ".pdf") ==> WithPdfSuffix(name) == name
    ensures !EndsWith(Lower(name), ".pdf") ==> WithPdfSuffix(name) == name + ".pdf"
  {
    if !EndsWith(Lower(name), ".pdf") {
      var t := name + ".pdf";
      assert t[|t| - 4..] == ".pdf";
      LowerKeepsPdfSuffix(t);
    }
  }

  /** Applying the `.pdf` rule twice is applying it once: a name is never suffixed twice. */
  lemma WithPdfSuffixIdempotent(name: string)
    ensures WithPdfSuffix(WithPdfSuffix(name)) == WithPdfSuffix(name)
  {
    WithPdfSuffixSpec(name);
    WithPdfSuffixSpec(WithPdfSuffix(name));
  }

  /** The `.pdf` rule neither adds nor removes a directory part. */
  lemma WithPdfSuffixKeepsDirPart(name: string)
    ensures HasDirPart(WithPdfSuffix(name)) <==> HasDirPart(name)
  {
    assert '/' !in ".pdf";
    assert forall c :: c in name + ".pdf" <==> c in name || c in ".pdf";
  }

  /** A blank answer means the default name, under the `.pdf` rule. */
  lemma BlankMeansDefault(line: string, defaultName: string)
    requires Strip(line) == ""
    ensures Candidate(line, defaultName) == WithPdfSuffix(defaultName)
  {
  }

  /** Every candidate ends in `.pdf` in any case. */
  lemma CandidateEndsInPdf(line: string, defaultName: string)
    ensures EndsWith(Lower(Candidate(line, defaultName)), ".pdf")
  {
    var n := Strip(line);
    WithPdfSuffixSpec(if n == "" then defaultName else n);
  }

  /**
   * The settled name is the candidate of the first answer without a directory
   * part; every earlier answer had one. `None` means every answer had one.
   */
  lemma OutputNameFirstFit(lines: seq<string>, defaultName: string)
    ensures OutputName(lines, defaultName).Some? ==>
      var name := OutputName(lines, defaultName).value;
      && !HasDirPart(name)
      && exists j :: 0 <= j < |lines| && name == Candidate(lines[j], defaultName)
           && forall k :: 0 <= k < j ==> HasDirPart(Candidate(lines[k], defaultName))
    ensures OutputName(lines, defaultName).None? ==>
      forall k :: 0 <= k < |lines| ==> HasDirPart(Candidate(lines[k], defaultName))
  {
    var names := Candidates(lines, defaultName);
    FirstFitSpec(names);
    if FirstFit(names).Some? {
      var j :| && 0 <= j < |names| && FirstFit(names).value == names[j] && !HasDirPart(names[j])
                && forall k :: 0 <= k < j ==> HasDirPart(names[k]);
      assert forall k :: 0 <= k < j ==> HasDirPart(Candidate(lines[k], defaultName));
    }
  }

  /** The settled name ends in `.pdf` in any case and has no directory part. */
  lemma OutputNameSpec(lines: seq<string>, defaultName: string)
    ensures OutputName(lines, defaultName).Some? ==>
      EndsWith(Lower(OutputName(lines, defaultName).value), ".pdf") && !HasDirPart(OutputName(lines, defaultName).value)
  {
    OutputNameFirstFit(lines, defaultName);
    if OutputName(lines, defaultName).Some? {
      var j :| 0 <= j < |lines| && OutputName(lines, defaultName).value == Candidate(lines[j], defaultName);
      CandidateEndsInPdf(lines[j], defaultName);
    }
  }

  /** A blank first answer settles on a default that already ends in `.pdf` and has no directory part. */
  lemma BlankAnswerSettlesOnDefault(lines: seq<string>, defaultName: string)
    requires lines != [] && Strip(lines[0]) == ""
    requires EndsWith(Lower(defaultName), ".pdf") && !HasDirPart(defaultName)
    ensures OutputName(lines, defaultName) == Some(defaultName)
  {
    var names := Candidates(lines, defaultName);
    assert names[0] == WithPdfSuffix(defaultName) == defaultName;
  }

  /** One prompt round: the `i`-th name is taken if it has no directory part, else the search goes on. */
  lemma FirstFitStep(names: seq<string>, i: nat)
    requires i < |names|
    ensures FirstFit(names[i..]) == if HasDirPart(names[i]) then FirstFit(names[i + 1..]) else Some(names[i])
  {
    assert names[i..][1..] == names[i + 1..];
  }

  /** `get_output_filename`: read answers until one survives the directory check. */
  method GetOutputFilename(lines: seq<string>, defaultName: string) returns (name: Option<string>)
    ensures name == OutputName(lines, defaultName)
    ensures name.Some? ==> EndsWith(Lower(name.value), ".pdf") && !HasDirPart(name.value)
  {
    var i := 0;
    ghost var names := Candidates(lines, defaultName);
    assert names[0..] == names;
    while i < |lines|
      invariant 0 <= i <= |lines|
      invariant OutputName(lines, defaultName) == FirstFit(names[i..])
    {
      FirstFitStep(names, i);
      var candidate := Candidate(lines[i], defaultName);
      if !HasDirPart(candidate) {
        OutputNameSpec(lines, defaultName);
        return Some(candidate);
      }
      i := i + 1;
    }
    return None;
  }
}
