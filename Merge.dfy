/**
 * `merge_pdfs`: append each file's pages to one merger, count the files
 * whose append raised, then write the merger out. Reading a file's pages is
 * the function `read`; `None` stands for an append that raised.
 */
module Merge {
  import opened Wrappers

  /** `PdfMerger`: the pages appended so far, in order. */
  class Merger<P> {
    var pages: seq<P>

    constructor ()
      ensures pages == []
    {
      pages := [];
    }

    /** `merger.append(...)` of a file whose pages are `ps`. */
    method Append(ps: seq<P>)
      modifies this
      ensures pages == old(pages) + ps
    {
      pages := pages + ps;
    }
  }

  /** What a batch driver ends with. */
  datatype BatchResult<P> =
    | NoFilesSelected                                      // nothing was collected, the driver returns at once
    | NothingWritten(failed: nat)                          // the merger has no page, no output is written
    | Written(pages: seq<P>, succeeded: nat, failed: nat)  // the output holds `pages`; the stats line is printed
    | CriticalError                                        // the final write raised; no success and no stats are reported

  /**
   * How a handler that can skip the write ends: no output for an empty
   * merger, otherwise the stats of a successful write or a critical error.
   */
  function Settle<P>(pages: seq<P>, total: nat, failed: nat, writeOk: bool): (r: BatchResult<P>)
    requires failed <= total
    ensures r.NothingWritten? <==> pages == []
    ensures r.Written? <==> pages != [] && writeOk
    ensures r.Written? ==> r.pages == pages && r.failed == failed && r.succeeded == total - failed
    ensures r.NothingWritten? ==> r.failed == failed
  {
    if pages == [] then NothingWritten(failed)
    else if writeOk then Written(pages, total - failed, failed)
    else CriticalError
  }

  /** The pages the merger holds after appending `files` in order. */
  function MergedPages<P>(files: seq<string>, read: string -> Option<seq<P>>): seq<P>
  {
    if files == [] then []
    else
      var last := files[|files| - 1];
      MergedPages(files[..|files| - 1], read) + (if read(last).Some? then read(last).value else [])
  }

  /** `error_count` after the loop: the files whose append raised. */
  function Failures<P>(files: seq<string>, read: string -> Option<seq<P>>): (n: nat)
    ensures n <= |files|
  {
    if files == [] then 0
    else Failures(files[..|files| - 1], read) + (if read(files[|files| - 1]).None? then 1 else 0)
  }

  /** The files whose append succeeded, in order. */
  function Appended<P>(files: seq<string>, read: string -> Option<seq<P>>): seq<string>
  {
    if files == [] then []
    else
      var last := files[|files| - 1];
      Appended(files[..|files| - 1], read) + (if read(last).Some? then [last] else [])
  }

  /** Every file either failed or was appended: the two counts add up to the number of files. */
  lemma {:induction false} CountsAddUp<P>(files: seq<string>, read: string -> Option<seq<P>>)
    ensures |Appended(files, read)| + Failures(files, read) == |files|
    ensures |files| - Failures(files, read) == |Appended(files, read)|
  {
    if files != [] {
      CountsAddUp(files[..|files| - 1], read);
    }
  }

  /** Merging two lists in turn gives the first list's pages, then the second's. */
  lemma {:induction false} MergedPagesAppend<P>(xs: seq<string>, ys: seq<string>, read: string -> Option<seq<P>>)
    ensures MergedPages(xs + ys, read) == MergedPages(xs, read) + MergedPages(ys, read)
    ensures Failures(xs + ys, read) == Failures(xs, read) + Failures(ys, read)
    decreases |ys|
  {
    if ys == [] {
      assert xs + ys == xs;
    } else {
      var ys' := ys[..|ys| - 1];
      assert (xs + ys)[..|xs + ys| - 1] == xs + ys';
      assert (xs + ys)[|xs + ys| - 1] == ys[|ys| - 1];
      MergedPagesAppend(xs, ys', read);
    }
  }

  /** One more file: its pages, if its append succeeds, follow those already merged; otherwise one more failure. */
  lemma MergedPagesStep<P>(files: seq<string>, i: nat, read: string -> Option<seq<P>>)
    requires i < |files|
    ensures MergedPages(files[..i + 1], read) == MergedPages(files[..i], read) + (if read(files[i]).Some? then read(files[i]).value else [])
    ensures Failures(files[..i + 1], read) == Failures(files[..i], read) + (if read(files[i]).None? then 1 else 0)
  {
    assert files[..i + 1][..i] == files[..i];
  }

  /** Two files whose appends both succeed: the first's pages, then the second's, and no failure. */
  lemma TwoAppended<P>(a: string, b: string, read: string -> Option<seq<P>>)
    requires read(a).Some? && read(b).Some?
    ensures MergedPages([a, b], read) == read(a).value + read(b).value
    ensures Failures([a, b], read) == 0
  {
    assert [a, b][..1] == [a];
    assert [a][..0] == [];
    assert MergedPages([a], read) == [] + read(a).value;
  }

  /** A file whose append raised adds no page and one failure, wherever it stands. */
  lemma FailedFileAddsNothing<P>(xs: seq<string>, f: string, ys: seq<string>, read: string -> Option<seq<P>>)
    requires read(f).None?
    ensures MergedPages(xs + [f] + ys, read) == MergedPages(xs + ys, read)
    ensures Failures(xs + [f] + ys, read) == Failures(xs + ys, read) + 1
  {
    MergedPagesAppend(xs + [f], ys, read);
    MergedPagesAppend(xs, [f], read);
    MergedPagesAppend(xs, ys, read);
    assert [f][..0] == [];
  }

  /** When every append succeeds, the merger holds each file's pages, in list order. */
  lemma {:induction false} AllAppendedKeepsOrder<P>(files: seq<string>, read: string -> Option<seq<P>>, k: nat)
    requires forall f :: f in files ==> read(f).Some?
    requires k < |files|
    ensures MergedPages(files, read) == MergedPages(files[..k], read) + read(files[k]).value + MergedPages(files[k + 1..], read)
    ensures Failures(files, read) == 0
  {
    assert files == files[..k] + [files[k]] + files[k + 1..];
    MergedPagesAppend(files[..k] + [files[k]], files[k + 1..], read);
    MergedPagesAppend(files[..k], [files[k]], read);
    assert [files[k]][..0] == [];
    NoFailures(files, read);
  }

  /** No failing file, no failure counted. */
  lemma {:induction false} NoFailures<P>(files: seq<string>, read: string -> Option<seq<P>>)
    requires forall f :: f in files ==> read(f).Some?
    ensures Failures(files, read) == 0
  {
    if files != [] {
      assert forall f :: f in files[..|files| - 1] ==> f in files;
      NoFailures(files[..|files| - 1], read);
    }
  }

  /**
   * Two files, the first well formed and the second not: the output holds
   * only the first file's pages and the report is one succeeded, one failed.
   */
  lemma OneGoodOneCorrupt<P>(a: string, b: string, read: string -> Option<seq<P>>)
    requires read(a).Some? && read(b).None?
    ensures MergedPages([a, b], read) == read(a).value
    ensures Failures([a, b], read) == 1
    ensures |[a, b]| - Failures([a, b], read) == 1
  {
    assert [a, b][..1] == [a];
    assert [a][..0] == [];
    assert MergedPages([a], read) == [] + read(a).value == read(a).value;
  }

  /** Three files of which only the second fails: the first's pages, then the third's, and one failure. */
  lemma SecondOfThreeFails<P>(a: string, b: string, c: string, read: string -> Option<seq<P>>)
    requires read(a).Some? && read(b).None? && read(c).Some?
    ensures MergedPages([a, b, c], read) == read(a).value + read(c).value
    ensures Failures([a, b, c], read) == 1
  {
    assert [a, b, c][..2] == [a, b];
    OneGoodOneCorrupt(a, b, read);
  }

  /**
   * `merge_pdfs`: the write is attempted whatever happened to the appends, so
   * the result is never `NothingWritten`; a failed write reports a critical
   * error and no stats.
   */
  method MergePdfs<P>(files: seq<string>, read: string -> Option<seq<P>>, writeOk: bool) returns (r: BatchResult<P>)
    ensures writeOk ==> r == Written(MergedPages(files, read), |files| - Failures(files, read), Failures(files, read))
    ensures !writeOk ==> r == CriticalError
  {
    var merger := new Merger<P>();
    var errorCount := 0;
    for i := 0 to |files|
      invariant merger.pages == MergedPages(files[..i], read)
      invariant errorCount == Failures(files[..i], read)
    {
      assert files[..i + 1][..i] == files[..i];
      match read(files[i])
      case Some(ps) =>
        merger.Append(ps);
      case None =>
        errorCount := errorCount + 1;
    }
    assert files[..|files|] == files;
    if writeOk {
      r := Written(merger.pages, |files| - errorCount, errorCount);
    } else {
      r := CriticalError;
    }
  }
}
