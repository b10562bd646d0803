/**
 * The page loop of `convert_epub` and `build_html_document`: every page's
 * body is extracted, repaired, given inline images and anchor links, and the
 * surviving pages are laid out one after another in a single HTML document
 * under the book's style sheet and a fixed overlay.
 */
module Assembly {
  import opened Wrappers
  import opened Text
  import opened NaturalSort
  import opened SelfClosing
  import opened BodyExtract
  import opened Assets
  import opened Substitute

  /** `PAGE_WIDTH` and `PAGE_HEIGHT` as they are printed into the style rule. */
  const PageWidth := "595.28"
  const PageHeight := "841.89"

  /** The entries of `parts` before the style sheet. */
  const Head: seq<string> := [
    "<!DOCTYPE html>",
    "<html lang=\"fr\">",
    "<head>",
    "<meta charset=\"utf-8\">",
    "<title>Document EPUB converti</title>",
    "<style>"
  ]

  /** The rules appended after the book's style sheet. */
  const Overlay: seq<string> := [
    "html, body { margin:0; padding:0; background:#111; font-family: system-ui, -apple-system, BlinkMacSystemFont, \"Segoe UI\", sans-serif; }",
    "body { position: static !important; }",
    ".wrapper { max-width: 635px; margin:0 auto; padding:2rem 0; }",
    "h1 { color:#f5f5f5; text-align:center; margin-bottom:2rem; font-size:1.5rem; font-weight:600; }",
    ".page-label { color:#ccc; text-align:center; margin:0 0 .5rem; font-size:0.85rem; letter-spacing:0.08em; text-transform:uppercase; }",
    ".page { position: relative; width: " + PageWidth + "px; height: " + PageHeight + "px; margin:0 auto 3rem; background:#fff; box-shadow:0 0 20px rgba(0,0,0,0.3); overflow:hidden; }",
    ".page .body { position: relative; }"
  ]

  /** The entries of `parts` between the overlay rules and the first page. */
  const Opening: seq<string> := [
    "</style>",
    "</head>",
    "<body>",
    "<div class=\"wrapper\">",
    "<h1>Document converti</h1>"
  ]

  /** The entries of `parts` after the last page. */
  const Closing: seq<string> := ["</div>", "</body>", "</html>"]

  // ---------------------------------------------------------------------
  // Page numbers

  /** `str(n)`: the decimal digits of `n`, without leading zeros. */
  function Decimal(n: nat): (r: string)
    ensures r != [] && AllDigits(r)
    ensures |r| == 1 || r[0] != '0'
    decreases n
  {
    var last := ['0' + (n % 10) as char];
    if n < 10 then last else Decimal(n / 10) + last
  }

  /** Reading the digits of `str(n)` back gives `n`. */
  lemma {:induction false} DecimalValue(n: nat)
    ensures Value(Decimal(n)) == n
    decreases n
  {
    var d := Decimal(n);
    if n >= 10 {
      DecimalValue(n / 10);
      assert d[..|d| - 1] == Decimal(n / 10);
    } else {
      assert d[..|d| - 1] == [];
    }
  }

  /** Different page numbers are printed differently. */
  lemma DecimalInjective(m: nat, n: nat)
    requires Decimal(m) == Decimal(n)
    ensures m == n
  {
    DecimalValue(m);
    DecimalValue(n);
  }

  // ---------------------------------------------------------------------
  // Sequences of entries
  //
  // Regroup, LineInMiddle, Frame and FourInMiddle only split the proofs about
  // the shape of the document (`PreambleShape`, `DocumentLayout`,
  // `CssBeforeOverlay`) into small steps for the solver.

  lemma Regroup<T>(a: seq<T>, b: seq<T>, c: seq<T>, d: seq<T>, e: seq<T>, f: seq<T>)
    ensures a + b + c + d + e + f == a + (b + (c + d + e + f))
  {
  }

  /** Element `|x| + j` of `x + y + z` is element `j` of `y`. */
  lemma LineInMiddle<T>(x: seq<T>, y: seq<T>, z: seq<T>, j: nat)
    requires j < |y|
    ensures (x + y + z)[|x| + j] == y[j]
  {
  }

  /** Joining a non-empty head, one entry and a non-empty rest. */
  lemma JoinAround(h: seq<string>, line: string, rest: seq<string>)
    requires h != [] && rest != []
    ensures Join(h + ([line] + rest)) == Join(h) + "\n" + line + "\n" + Join(rest)
  {
    JoinAppend(h, [line] + rest);
    JoinAppend([line], rest);
  }

  // ---------------------------------------------------------------------
  // The document

  const LabelOpen := "<p class=\"page-label\">Page "
  const LabelClose := "</p>"

  /** The label entry above page `idx`. */
  function Label(idx: nat): string
  {
    LabelOpen + Decimal(idx) + LabelClose
  }

  /** The entry that opens the container of page `idx`. */
  function Container(idx: nat): string
  {
    "<div class=\"page page-" + Decimal(idx) + "\" id=\"page-" + Decimal(idx) + "\">"
  }

  /** The four entries one iteration of the page loop appends to `parts`. */
  function PageEntries(idx: nat, content: string): seq<string>
  {
    [Label(idx), Container(idx), content, "</div>"]
  }

  /** The entries of all pages, numbered from 1 in order. */
  function PageBlock(pages: seq<string>): (r: seq<string>)
    ensures |r| == 4 * |pages|
    decreases |pages|
  {
    if pages == [] then []
    else PageBlock(pages[..|pages| - 1]) + PageEntries(|pages|, pages[|pages| - 1])
  }

  /** The entries of `parts` before the first page. */
  function Preamble(css: string): seq<string>
  {
    Head + [css] + Overlay + Opening
  }

  /** The list `parts` that `build_html_document` joins. */
  function DocumentParts(pages: seq<string>, css: string): seq<string>
  {
    Preamble(css) + PageBlock(pages) + Closing
  }

  /** `build_html_document(pages, css)`. */
  method BuildHtmlDocument(pages: seq<string>, css: string) returns (html: string)
    ensures html == Join(DocumentParts(pages, css))
  {
    var parts: seq<string> := [];
    parts := parts + ["<!DOCTYPE html>"];
    parts := parts + ["<html lang=\"fr\">"];
    parts := parts + ["<head>"];
    parts := parts + ["<meta charset=\"utf-8\">"];
    parts := parts + ["<title>Document EPUB converti</title>"];
    parts := parts + ["<style>"];
    assert parts == Head;
    parts := parts + [css];
    parts := parts + [Overlay[0]];
    parts := parts + [Overlay[1]];
    parts := parts + [Overlay[2]];
    parts := parts + [Overlay[3]];
    parts := parts + [Overlay[4]];
    parts := parts + [Overlay[5]];
    parts := parts + [Overlay[6]];
    assert parts == Head + [css] + Overlay;
    parts := parts + ["</style>"];
    parts := parts + ["</head>"];
    parts := parts + ["<body>"];
    parts := parts + ["<div class=\"wrapper\">"];
    parts := parts + ["<h1>Document converti</h1>"];
    assert parts == Preamble(css);
    for i := 0 to |pages|
      invariant parts == Preamble(css) + PageBlock(pages[..i])
    {
      var idx := i + 1;
      var content := pages[i];
      parts := parts + [LabelOpen + Decimal(idx) + LabelClose];
      parts := parts + ["<div class=\"page page-" + Decimal(idx) + "\" id=\"page-" + Decimal(idx) + "\">"];
      parts := parts + [content];
      parts := parts + ["</div>"];
      assert pages[..i + 1][..i] == pages[..i];
    }
    assert pages[..|pages|] == pages;
    parts := parts + ["</div>"];
    parts := parts + ["</body>"];
    parts := parts + ["</html>"];
    assert parts == Preamble(css) + PageBlock(pages) + Closing;
    html := Join(parts);
  }

  /** Page `k` (from 0) of the block occupies entries `4k` to `4k + 3`. */
  lemma {:induction false} PageBlockAt(pages: seq<string>, k: nat)
    requires k < |pages|
    ensures PageBlock(pages)[4 * k..4 * k + 4] == PageEntries(k + 1, pages[k])
    decreases |pages|
  {
    var init := pages[..|pages| - 1];
    if k < |pages| - 1 {
      PageBlockAt(init, k);
      assert PageBlock(pages)[4 * k..4 * k + 4] == PageBlock(init)[4 * k..4 * k + 4];
    } else {
      assert PageBlock(pages)[4 * k..4 * k + 4] == PageEntries(|pages|, pages[k]);
    }
  }

  /** The preamble has nineteen entries: the style sheet is entry 6, followed by the overlay rules. */
  lemma PreambleShape(css: string)
    ensures |Preamble(css)| == 19 && Preamble(css)[6] == css && Preamble(css)[7..14] == Overlay
  {
    var pre := Preamble(css);
    LineInMiddle(Head, [css], Overlay + Opening, 0);
    assert pre == Head + [css] + (Overlay + Opening);
    assert (Overlay + Opening)[..7] == Overlay;
  }

  /** The elements of a framed sequence before its middle part and after it are those of the frame. */
  lemma Frame<T>(x: seq<T>, y: seq<T>, z: seq<T>, i: nat, j: nat)
    requires i < j <= |x|
    ensures (x + y + z)[i] == x[i] && (x + y + z)[i..j] == x[i..j]
    ensures (x + y + z)[|x| + |y|..] == z
  {
  }

  /** Four consecutive elements of the middle part of a framed sequence, read through the whole. */
  lemma FourInMiddle<T>(x: seq<T>, y: seq<T>, z: seq<T>, b: nat, four: seq<T>)
    requires b + 4 <= |y| && y[b..b + 4] == four
    ensures |four| == 4
    ensures (x + y + z)[|x| + b] == four[0] && (x + y + z)[|x| + b + 1] == four[1]
    ensures (x + y + z)[|x| + b + 2] == four[2] && (x + y + z)[|x| + b + 3] == four[3]
  {
    assert y[b] == four[0] && y[b + 1] == four[1] && y[b + 2] == four[2] && y[b + 3] == four[3];
  }

  /**
   * The entries of `parts`, which are joined by newlines (the style sheet
   * and the page bodies may hold newlines of their own): the style sheet is
   * entry 6, right before the seven overlay rules; page `k` (from 1) has its
   * label at entry `15 + 4k`, its container at `16 + 4k`, its content at
   * `17 + 4k` and its closing tag at `18 + 4k`; three closing entries end
   * the list.
   */
  lemma DocumentLayout(pages: seq<string>, css: string, k: nat)
    requires 1 <= k <= |pages|
    ensures var parts := DocumentParts(pages, css);
      && |parts| == 22 + 4 * |pages|
      && parts[6] == css && parts[7..14] == Overlay
      && parts[15 + 4 * k] == Label(k) && parts[16 + 4 * k] == Container(k)
      && parts[17 + 4 * k] == pages[k - 1] && parts[18 + 4 * k] == "</div>"
      && parts[|parts| - 3..] == Closing
  {
    var pre, block, entries := Preamble(css), PageBlock(pages), PageEntries(k, pages[k - 1]);
    PreambleShape(css);
    PageBlockAt(pages, k - 1);
    FourInMiddle(pre, block, Closing, 4 * (k - 1), entries);
    Frame(pre, block, Closing, 6, 14);
    Frame(pre, block, Closing, 7, 14);
  }

  /** Each page number is written in exactly one label: labels of different pages differ. */
  lemma LabelsDistinct(j: nat, k: nat)
    ensures Label(j) == Label(k) <==> j == k
  {
    if Label(j) == Label(k) {
      var a, b := Label(j), Label(k);
      assert a[|LabelOpen|..|a| - |LabelClose|] == Decimal(j);
      assert b[|LabelOpen|..|b| - |LabelClose|] == Decimal(k);
      DecimalInjective(j, k);
    }
  }

  /** Each page number is the `id` of exactly one container: containers of different pages differ. */
  lemma ContainersDistinct(j: nat, k: nat)
    ensures Container(j) == Container(k) <==> j == k
  {
    var p := "<div class=\"page page-";
    if Container(j) == Container(k) {
      var a, b := Container(j), Container(k);
      var dj, dk := Decimal(j), Decimal(k);
      assert a[..|p|] == p && a[|p|..|p| + |dj|] == dj && a[|p| + |dj|] == '"';
      assert b[..|p|] == p && b[|p|..|p| + |dk|] == dk && b[|p| + |dk|] == '"';
      assert |dj| == |dk|;
      assert dj == dk;
      DecimalInjective(j, k);
    }
  }

  /** The book's style sheet comes verbatim right after the head entries and before the overlay rules. */
  lemma CssBeforeOverlay(pages: seq<string>, css: string)
    ensures Join(DocumentParts(pages, css)) ==
      Join(Head) + "\n" + css + "\n" + Join(Overlay + Opening + PageBlock(pages) + Closing)
  {
    var rest := Overlay + Opening + PageBlock(pages) + Closing;
    Regroup(Head, [css], Overlay, Opening, PageBlock(pages), Closing);
    JoinAround(Head, css, rest);
  }

  // ---------------------------------------------------------------------
  // The page loop

  /** What one surviving body becomes: repaired tags, then inline images, then anchor links. */
  function Transform(body: string, images: map<string, string>): string
  {
    RewritePageLinks(ReplaceImagesInHtml(FixSelfClosing(body), images))
  }

  /**
   * The list a loop builds by taking `bodyOf(f)` for each `f` in `files`,
   * skipping empty ones and appending `transform` of the others.
   */
  function Kept(files: seq<string>, bodyOf: string -> string, transform: string -> string): seq<string>
    decreases |files|
  {
    if files == [] then []
    else
      var done := Kept(files[..|files| - 1], bodyOf, transform);
      var body := bodyOf(files[|files| - 1]);
      if body == "" then done else done + [transform(body)]
  }

  lemma {:induction false} KeptConcat(a: seq<string>, b: seq<string>, bodyOf: string -> string, transform: string -> string)
    ensures Kept(a + b, bodyOf, transform) == Kept(a, bodyOf, transform) + Kept(b, bodyOf, transform)
    decreases |b|
  {
    if b == [] {
      assert a + b == a;
    } else {
      var b' := b[..|b| - 1];
      assert (a + b)[..|a + b| - 1] == a + b';
      assert (a + b)[|a + b| - 1] == b[|b| - 1];
      KeptConcat(a, b', bodyOf, transform);
    }
  }

  lemma KeptOne(f: string, bodyOf: string -> string, transform: string -> string)
    ensures Kept([f], bodyOf, transform) == if bodyOf(f) == "" then [] else [transform(bodyOf(f))]
  {
    assert [f][..0] == [];
  }

  lemma {:induction false} KeptEmptyIff(files: seq<string>, bodyOf: string -> string, transform: string -> string)
    ensures Kept(files, bodyOf, transform) == [] <==> forall i :: 0 <= i < |files| ==> bodyOf(files[i]) == ""
    decreases |files|
  {
    if files != [] {
      var init := files[..|files| - 1];
      KeptEmptyIff(init, bodyOf, transform);
      assert forall i :: 0 <= i < |init| ==> init[i] == files[i];
    }
  }

  /** `pages_html` after the loop over `pageFiles`; `read` gives each file's text. */
  function ProcessedPages(pageFiles: seq<string>, read: string -> string, images: map<string, string>): seq<string>
  {
    Kept(pageFiles, f => ExtractBody(read(f)), b => Transform(b, images))
  }

  /** The loop of `convert_epub` over the sorted page files. */
  method ProcessPages(pageFiles: seq<string>, read: string -> string, images: map<string, string>)
    returns (pagesHtml: seq<string>)
    ensures pagesHtml == ProcessedPages(pageFiles, read, images)
  {
    pagesHtml := [];
    for i := 0 to |pageFiles|
      invariant pagesHtml == ProcessedPages(pageFiles[..i], read, images)
    {
      assert pageFiles[..i + 1][..i] == pageFiles[..i];
      var page := pageFiles[i];
      var body := ExtractBody(read(page));
      if body == "" {
        continue;
      }
      body := FixSelfClosing(body);
      body := ReplaceImagesInHtml(body, images);
      body := RewritePageLinks(body);
      pagesHtml := pagesHtml + [body];
    }
    assert pageFiles[..|pageFiles|] == pageFiles;
  }

  /** Processing a list of files is processing each part and concatenating, in order. */
  lemma ProcessedConcat(a: seq<string>, b: seq<string>, read: string -> string, images: map<string, string>)
    ensures ProcessedPages(a + b, read, images) == ProcessedPages(a, read, images) + ProcessedPages(b, read, images)
  {
    KeptConcat(a, b, f => ExtractBody(read(f)), b => Transform(b, images));
  }

  /** Unfolding step: one file contributes nothing when its body is empty, and its transformed body otherwise. */
  lemma ProcessedOne(page: string, read: string -> string, images: map<string, string>)
    ensures ProcessedPages([page], read, images) ==
      var body := ExtractBody(read(page)); if body == "" then [] else [Transform(body, images)]
  {
    KeptOne(page, f => ExtractBody(read(f)), b => Transform(b, images));
  }

  /** A file whose body is empty is dropped without affecting the pages around it. */
  lemma EmptyPageDropped(a: seq<string>, page: string, b: seq<string>, read: string -> string, images: map<string, string>)
    requires ExtractBody(read(page)) == ""
    ensures ProcessedPages(a + [page] + b, read, images) == ProcessedPages(a + b, read, images)
  {
    ProcessedConcat(a + [page], b, read, images);
    ProcessedConcat(a, [page], read, images);
    ProcessedOne(page, read, images);
    ProcessedConcat(a, b, read, images);
  }

  /** A file whose body is not empty yields exactly one page, in its place. */
  lemma PageKept(a: seq<string>, page: string, b: seq<string>, read: string -> string, images: map<string, string>)
    requires ExtractBody(read(page)) != ""
    ensures ProcessedPages(a + [page] + b, read, images) ==
      ProcessedPages(a, read, images) + [Transform(ExtractBody(read(page)), images)] + ProcessedPages(b, read, images)
  {
    ProcessedConcat(a + [page], b, read, images);
    ProcessedConcat(a, [page], read, images);
    ProcessedOne(page, read, images);
  }

  /** No page survives exactly when every file's body is empty. */
  lemma NoPagesIff(pageFiles: seq<string>, read: string -> string, images: map<string, string>)
    ensures ProcessedPages(pageFiles, read, images) == [] <==>
      forall i :: 0 <= i < |pageFiles| ==> ExtractBody(read(pageFiles[i])) == ""
  {
    KeptEmptyIff(pageFiles, f => ExtractBody(read(f)), b => Transform(b, images));
  }

  // ---------------------------------------------------------------------
  // convert_epub

  datatype Failure =
    | NoPageFiles       // "Could not locate any page-*.xhtml files in the EPUB"
    | NoPagesProcessed  // "No pages could be processed from the EPUB"

  /**
   * `convert_epub` once the archive is unpacked: `pageFiles` are the page
   * files found under the package root, `read` gives a file's text, `css` the
   * concatenated style sheets, and the two directories the font and image
   * files (absent when the directory does not exist). Returns the document
   * that would be written, or the error that would be raised.
   */
  method ConvertEpub(pageFiles: seq<string>, read: string -> string, css: string,
                     fontsDir: Option<seq<Entry>>, imagesDir: Option<seq<Entry>>)
    returns (r: Result<string, Failure>)
    ensures pageFiles == [] ==> r == Err(NoPageFiles)
    ensures pageFiles != [] ==>
      var fonts := if fontsDir.None? then map[] else Collect(fontsDir.value, FontUri);
      var images := if imagesDir.None? then map[] else Collect(imagesDir.value, ImageUri);
      var pages := ProcessedPages(FindPagesOrder(pageFiles), read, images);
      r == if pages == [] then Err(NoPagesProcessed)
           else Ok(Join(DocumentParts(pages, EmbedFontRefs(css, fonts))))
  {
    if pageFiles == [] {
      return Err(NoPageFiles);
    }
    var cssText := EmbedFonts(css, fontsDir);
    var images := EncodeImages(imagesDir);
    var sorted := FindPagesOrder(pageFiles);
    var pagesHtml := ProcessPages(sorted, read, images);
    if pagesHtml == [] {
      return Err(NoPagesProcessed);
    }
    var html := BuildHtmlDocument(pagesHtml, cssText);
    return Ok(html);
  }
}
