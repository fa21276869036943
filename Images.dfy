/**
 * `convert_images_to_pdf`: open each image, convert `RGBA` ones to `RGB`,
 * skip the ones that fail, and save the survivors as one multi-page PDF.
 * Opening an image is the function `open`, which gives its colour mode, or
 * `None` when opening or converting it raised.
 */
module Images {
  import opened Wrappers

  /** An opened image: where it came from and its colour mode. */
  datatype Picture = Picture(path: string, mode: string)

  /** How a run of the image driver ends. */
  datatype ImageResult =
    | NoImagesToConvert                                            // warning, no save
    | ImagesSaved(base: Picture, appended: seq<Picture>, count: nat) // first survivor is the base page
    | SaveFailed                                                   // save raised, the partial output is removed

  /** The mode an image has once it is ready for the PDF: `RGBA` becomes `RGB`. */
  function PdfMode(mode: string): string
  {
    if mode == "RGBA" then "RGB" else mode
  }

  /** The images list after the loop over `paths`. */
  function Survivors(paths: seq<string>, open: string -> Option<string>): seq<Picture>
  {
    if paths == [] then []
    else
      var last := paths[|paths| - 1];
      Survivors(paths[..|paths| - 1], open)
        + (if open(last).Some? then [Picture(last, PdfMode(open(last).value))] else [])
  }

  /** No survivor is left in `RGBA` mode; any other mode is kept as it was. */
  lemma PdfModeSpec(mode: string)
    ensures PdfMode(mode) != "RGBA"
    ensures mode != "RGBA" ==> PdfMode(mode) == mode
  {
  }

  /**
   * Each survivor is an input image that opened, in the mode the PDF needs:
   * its original mode, or `RGB` in place of `RGBA`.
   */
  lemma {:induction false} SurvivorsAreOpened(paths: seq<string>, open: string -> Option<string>)
    ensures forall p :: p in Survivors(paths, open) ==>
      && p.path in paths && open(p.path).Some?
      && p.mode == PdfMode(open(p.path).value) && p.mode != "RGBA"
    ensures |Survivors(paths, open)| <= |paths|
  {
    if paths != [] {
      var init := paths[..|paths| - 1];
      SurvivorsAreOpened(init, open);
      assert forall q :: q in init ==> q in paths;
    }
  }

  /** Survivors keep the input order: the survivors of two lists are those of the first, then of the second. */
  lemma {:induction false} SurvivorsAppend(xs: seq<string>, ys: seq<string>, open: string -> Option<string>)
    ensures Survivors(xs + ys, open) == Survivors(xs, open) + Survivors(ys, open)
    decreases |ys|
  {
    if ys == [] {
      assert xs + ys == xs;
    } else {
      var ys' := ys[..|ys| - 1];
      assert (xs + ys)[..|xs + ys| - 1] == xs + ys';
      assert (xs + ys)[|xs + ys| - 1] == ys[|ys| - 1];
      SurvivorsAppend(xs, ys', open);
    }
  }

  /** An image that fails to open is skipped, wherever it stands. */
  lemma FailingImageSkipped(xs: seq<string>, f: string, ys: seq<string>, open: string -> Option<string>)
    requires open(f).None?
    ensures Survivors(xs + [f] + ys, open) == Survivors(xs + ys, open)
  {
    SurvivorsAppend(xs + [f], ys, open);
    SurvivorsAppend(xs, [f], open);
    SurvivorsAppend(xs, ys, open);
    assert [f][..0] == [];
  }

  /** When no image opens there is nothing to save. */
  lemma {:induction false} NoneOpenNoSurvivor(paths: seq<string>, open: string -> Option<string>)
    requires forall p :: p in paths ==> open(p).None?
    ensures Survivors(paths, open) == []
  {
    if paths != [] {
      assert forall q :: q in paths[..|paths| - 1] ==> q in paths;
      NoneOpenNoSurvivor(paths[..|paths| - 1], open);
    }
  }

  /**
   * `convert_images_to_pdf`: with no survivor nothing is saved; otherwise the
   * first survivor is the base page, the rest follow in input order, and the
   * count reported is the number of survivors.
   */
  method ConvertImagesToPdf(paths: seq<string>, open: string -> Option<string>, saveOk: bool) returns (r: ImageResult)
    ensures var s := Survivors(paths, open);
      && (s == [] ==> r == NoImagesToConvert)
      && (s != [] && saveOk ==> r == ImagesSaved(s[0], s[1..], |s|))
      && (s != [] && !saveOk ==> r == SaveFailed)
  {
    var images: seq<Picture> := [];
    for i := 0 to |paths|
      invariant images == Survivors(paths[..i], open)
    {
      assert paths[..i + 1][..i] == paths[..i];
      match open(paths[i])
      case Some(mode) =>
        var img := Picture(paths[i], mode);
        if img.mode == "RGBA" {
          img := img.(mode := "RGB");
        }
        images := images + [img];
      case None =>
    }
    assert paths[..|paths|] == paths;
    if images == [] {
      return NoImagesToConvert;
    }
    if saveOk {
      r := ImagesSaved(images[0], images[1..], |images|);
    } else {
      r := SaveFailed;
    }
  }
}
