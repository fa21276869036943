/**
 * The three filename validators. Each runs its checks in a fixed order and
 * reports the first that fails: a directory part, then existence, then the
 * extension, then (PDF and image only) whether the content parses.
 */
module Validation {
  import opened Wrappers
  import opened Text

  /** The names of the files present in the working directory. */
  type FileSystem = set<string>

  /** Why a name was refused; each stands for one exception the validator raises. */
  datatype ValidationError =
    | PathNotAllowed        // "Please enter filename only"
    | NotFound              // FileNotFoundError
    | UnsupportedExtension  // "Not a PDF file" / "Not a supported ... file"
    | Corrupt               // the PDF reader or the image decoder raised

  /** `os.path.exists(name)`; the empty name never exists. */
  predicate Exists(fs: FileSystem, name: string)
  {
    name != "" && name in fs
  }

  const ImageExtensions: seq<string> := [".jpg", ".jpeg", ".png", ".webp", ".bmp"]

  /** `validate_pdf_file`; `parses` says whether reading the file as a PDF succeeds. */
  function ValidatePdfFile(fs: FileSystem, parses: string -> bool, name: string): (r: Outcome<ValidationError>)
    ensures r == Pass <==> !HasDirPart(name) && Exists(fs, name) && EndsWith(Lower(name), ".pdf") && parses(name)
    ensures r == Fail(PathNotAllowed) <==> HasDirPart(name)
    ensures r == Fail(NotFound) <==> !HasDirPart(name) && !Exists(fs, name)
    ensures r == Fail(UnsupportedExtension) <==> !HasDirPart(name) && Exists(fs, name) && !EndsWith(Lower(name), ".pdf")
  {
    if HasDirPart(name) then Fail(PathNotAllowed)
    else if !Exists(fs, name) then Fail(NotFound)
    else if !EndsWith(Lower(name), ".pdf") then Fail(UnsupportedExtension)
    else if !parses(name) then Fail(Corrupt)
    else Pass
  }

  /** `validate_image_file`; `decodes` says whether opening and verifying the image succeeds. */
  function ValidateImageFile(fs: FileSystem, decodes: string -> bool, name: string): (r: Outcome<ValidationError>)
    ensures r == Pass <==> !HasDirPart(name) && Exists(fs, name) && EndsWithAny(Lower(name), ImageExtensions) && decodes(name)
    ensures r == Fail(PathNotAllowed) <==> HasDirPart(name)
    ensures r == Fail(NotFound) <==> !HasDirPart(name) && !Exists(fs, name)
    ensures r == Fail(UnsupportedExtension) <==> !HasDirPart(name) && Exists(fs, name) && !EndsWithAny(Lower(name), ImageExtensions)
  {
    if HasDirPart(name) then Fail(PathNotAllowed)
    else if !Exists(fs, name) then Fail(NotFound)
    else if !EndsWithAny(Lower(name), ImageExtensions) then Fail(UnsupportedExtension)
    else if !decodes(name) then Fail(Corrupt)
    else Pass
  }

  /** `validate_office_file`: there is no content check, so a name is never `Corrupt`. */
  function ValidateOfficeFile(fs: FileSystem, extensions: seq<string>, name: string): (r: Outcome<ValidationError>)
    ensures r == Pass <==> !HasDirPart(name) && Exists(fs, name) && EndsWithAny(Lower(name), extensions)
    ensures r == Fail(PathNotAllowed) <==> HasDirPart(name)
    ensures r == Fail(NotFound) <==> !HasDirPart(name) && !Exists(fs, name)
    ensures r != Fail(Corrupt)
  {
    if HasDirPart(name) then Fail(PathNotAllowed)
    else if !Exists(fs, name) then Fail(NotFound)
    else if !EndsWithAny(Lower(name), extensions) then Fail(UnsupportedExtension)
    else Pass
  }

  /** Which validator a collector uses, with what that validator needs. */
  datatype Category =
    | PdfFiles(parses: string -> bool)
    | ImageFiles(decodes: string -> bool)
    | OfficeFiles(extensions: seq<string>)

  function Validate(fs: FileSystem, cat: Category, name: string): Outcome<ValidationError>
  {
    match cat
    case PdfFiles(parses) => ValidatePdfFile(fs, parses, name)
    case ImageFiles(decodes) => ValidateImageFile(fs, decodes, name)
    case OfficeFiles(extensions) => ValidateOfficeFile(fs, extensions, name)
  }

  /** The extensions a category accepts, used by the extension check. */
  function AcceptedExtensions(cat: Category): seq<string>
  {
    match cat
    case PdfFiles(_) => [".pdf"]
    case ImageFiles(_) => ImageExtensions
    case OfficeFiles(extensions) => extensions
  }

  /** A name with a directory part is refused as such, whatever the category and the files. */
  lemma PathRejectedFirst(fs: FileSystem, cat: Category, name: string)
    requires HasDirPart(name)
    ensures Validate(fs, cat, name) == Fail(PathNotAllowed)
  {
  }

  /**
   * A missing directory-free name is reported as not found, never as having
   * the wrong extension, even when its extension is one the category accepts.
   */
  lemma MissingBeforeExtension(fs: FileSystem, cat: Category, name: string)
    requires !HasDirPart(name) && !Exists(fs, name)
    ensures Validate(fs, cat, name) == Fail(NotFound)
    ensures Validate(fs, cat, name) != Fail(UnsupportedExtension)
  {
  }

  /**
   * Every validator passes exactly the existing, directory-free names whose
   * lower-cased form ends in an accepted extension and, for PDF and image
   * files, whose content parses.
   */
  lemma {:induction false} ValidateAccepts(fs: FileSystem, cat: Category, name: string)
    ensures Validate(fs, cat, name) == Pass <==>
      && !HasDirPart(name) && Exists(fs, name)
      && EndsWithAny(Lower(name), AcceptedExtensions(cat))
      && (cat.PdfFiles? ==> cat.parses(name))
      && (cat.ImageFiles? ==> cat.decodes(name))
  {
    if cat.PdfFiles? {
      var ext := [".pdf"];
      assert EndsWithAny(Lower(name), ext) <==> EndsWith(Lower(name), ".pdf") by {
        assert ext[0] == ".pdf";
      }
    }
  }
}
