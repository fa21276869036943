/**
 * The two decidable pieces of the blog driver: the `is_blog_url` heuristic
 * and `add_pdf_styles`. The URL arrives already split into its network
 * location and its path.
 */
module Blog {
  import opened Text

  /** The substrings that mark a blog post, in the order they are tried. */
  const BlogIndicators: seq<string> := ["/blog/", "/post/", "/article/", "medium.com", "wordpress.com", "blogspot"]

  /** Python's `any(ind in path or ind in netloc for ind in indicators)`. */
  function AnyIndicator(indicators: seq<string>, path: string, netloc: string): (r: bool)
    ensures r <==> exists k :: 0 <= k < |indicators| && (Contains(path, indicators[k]) || Contains(netloc, indicators[k]))
  {
    if indicators == [] then false
    else
      var here := Contains(path, indicators[0]) || Contains(netloc, indicators[0]);
      var later := AnyIndicator(indicators[1..], path, netloc);
      assert later <==> exists k :: 1 <= k < |indicators| && (Contains(path, indicators[k]) || Contains(netloc, indicators[k])) by {
        if later {
          var j :| 0 <= j < |indicators[1..]| && (Contains(path, indicators[1..][j]) || Contains(netloc, indicators[1..][j]));
          assert indicators[1..][j] == indicators[j + 1];
        }
        if exists k :: 1 <= k < |indicators| && (Contains(path, indicators[k]) || Contains(netloc, indicators[k])) {
          var k :| 1 <= k < |indicators| && (Contains(path, indicators[k]) || Contains(netloc, indicators[k]));
          assert indicators[1..][k - 1] == indicators[k];
        }
      }
      here || later
  }

  /**
   * `is_blog_url`: some indicator occurs in the lower-cased path or in the
   * network location as written (which is not lower-cased).
   */
  function IsBlogUrl(netloc: string, path: string): (r: bool)
    ensures r <==> exists k ::
      && 0 <= k < |BlogIndicators|
      && (Contains(Lower(path), BlogIndicators[k]) || Contains(netloc, BlogIndicators[k]))
  {
    AnyIndicator(BlogIndicators, Lower(path), netloc)
  }

  /** A host on one of the blog platforms is a blog whatever the path. */
  lemma BlogHostIsBlog(netloc: string, path: string, host: string)
    requires host in ["medium.com", "wordpress.com", "blogspot"]
    requires Contains(netloc, host)
    ensures IsBlogUrl(netloc, path)
  {
    var k := if host == "medium.com" then 3 else if host == "wordpress.com" then 4 else 5;
    assert BlogIndicators[k] == host;
  }

  /** The path is compared without regard to case: any casing of `/blog/` in the raw path counts. */
  lemma PathCaseIgnored(netloc: string, path: string, i: nat)
    requires i + 6 <= |path| && Lower(path[i..i + 6]) == "/blog/"
    ensures IsBlogUrl(netloc, path)
  {
    LowerSlice(path, i, i + 6);
    assert OccursAt(Lower(path), "/blog/", i);
    assert BlogIndicators[0] == "/blog/";
  }

  /** In particular `/BLOG/` in the path, as typed, makes a blog URL. */
  lemma UpperCaseBlogPath(netloc: string, path: string)
    requires Contains(path, "/BLOG/")
    ensures IsBlogUrl(netloc, path)
  {
    var i :| OccursAt(path, "/BLOG/", i);
    assert Lower("/BLOG/") == "/blog/" by {
      LowerCaseless("/BLOG/", "/blog/");
      LowerIdempotent("/blog/");
      assert forall k :: 0 <= k < 6 ==> SameIgnoringCase("/BLOG/"[k], "/blog/"[k]);
      assert forall k :: 0 <= k < 6 ==> LowerChar("/blog/"[k]) == "/blog/"[k];
    }
    PathCaseIgnored(netloc, path, i);
  }

  /** The network location is not lower-cased: an upper-case platform host alone is not a blog. */
  lemma HostCaseKept()
    ensures !IsBlogUrl("MEDIUM.COM", "/")
  {
    assert Lower("/") == "/";
    forall k | 0 <= k < |BlogIndicators|
      ensures !Contains("/", BlogIndicators[k]) && !Contains("MEDIUM.COM", BlogIndicators[k])
    {
      assert |BlogIndicators[k]| > 1;
      assert forall i :: 0 <= i <= 10 - |BlogIndicators[k]| ==> "MEDIUM.COM"[i] != BlogIndicators[k][0];
    }
  }

  /** The style block placed in front of the article: fonts, image width, code blocks, link colour. */
  const PdfStyles: string :=
    "\n    <style>\n"
    + "        body { font-family: Arial, sans-serif; line-height: 1.6; margin: 2cm; }\n"
    + "        img { max-width: 100%; height: auto; }\n"
    + "        pre { background: #f4f4f4; padding: 10px; overflow: auto; }\n"
    + "        code { font-family: Monaco, Consolas, monospace; }\n"
    + "        h1, h2, h3 { color: #2c3e50; }\n"
    + "        a { color: #3498db; text-decoration: none; }\n"
    + "    </style>\n    "

  /** `add_pdf_styles`: the style block, a newline, then the article unchanged. */
  function AddPdfStyles(html: string): (r: string)
    ensures |r| == |PdfStyles| + 1 + |html|
    ensures r[..|PdfStyles|] == PdfStyles
    ensures r[|PdfStyles|] == '\n'
    ensures r[|PdfStyles| + 1..] == html
  {
    PdfStyles + "\n" + html
  }

  /** The article can be read back from the styled page: different articles give different pages. */
  lemma AddPdfStylesInjective(x: string, y: string)
    requires AddPdfStyles(x) == AddPdfStyles(y)
    ensures x == y
  {
    assert x == AddPdfStyles(x)[|PdfStyles| + 1..];
  }
}
