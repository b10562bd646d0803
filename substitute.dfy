/**
 * The `re.sub` passes that rewrite references inside a page or a style
 * sheet: image sources and image `url(...)`s become data URIs, font
 * `url(...)`s become data URIs, and links to other page files become
 * anchors inside the single output document.
 *
 * Each pattern is a function that decides whether it matches at the start
 * of a text and what its group captures; `Sub` is the left-to-right scan of
 * `re.sub`, which replaces a match and resumes after it, or copies one
 * character and resumes at the next.
 */
module Substitute {
  import opened Wrappers
  import opened Text
  import opened Assets

  const SrcOpen := "src=\"images/"
  const UrlImages := "url(images/"
  const UrlOpen := "url("
  const FontsDir := "/fonts/"
  const UrlFonts := "url(fonts/"
  const PageOpen := "href=\"page-"
  const PageClose := ".xhtml\""

  /** One match at the start of a text: the length of `group(0)` and `group(1)`. */
  datatype Match = Match(len: nat, group: string)

  /** The length of the longest prefix of `s` whose characters all satisfy `ok`. */
  function Run(s: string, ok: char -> bool): (n: nat)
    ensures n <= |s|
    ensures forall i :: 0 <= i < n ==> ok(s[i])
    ensures n < |s| ==> !ok(s[n])
  {
    if s == [] || !ok(s[0]) then 0 else 1 + Run(s[1..], ok)
  }

  lemma {:induction false} RunIs(s: string, ok: char -> bool, n: nat)
    requires n <= |s| && (forall i :: 0 <= i < n ==> ok(s[i])) && (n < |s| ==> !ok(s[n]))
    ensures Run(s, ok) == n
  {
    if n > 0 {
      RunIs(s[1..], ok, n - 1);
    }
  }

  /** The class `[^"/]`. */
  predicate NameChar(c: char) { c != '"' && c != '/' }

  /** `src="images/([^"/]+)"` at the start of `s`. */
  function MatchSrc(s: string): (r: Option<Match>)
  {
    if !OccursAt(s, SrcOpen, 0) then None
    else
      var n := Run(s[|SrcOpen|..], NameChar);
      if 0 < n && |SrcOpen| + n < |s| && s[|SrcOpen| + n] == '"'
      then Some(Match(|SrcOpen| + n + 1, s[|SrcOpen|..|SrcOpen| + n]))
      else None
  }

  /** The text between `<prefix>` at the start of `s` and the first `)` after it. */
  function UrlRegion(s: string, prefix: string): (r: Option<string>)
    ensures r.Some? ==> OccursAt(s, prefix, 0) && |prefix| + |r.value| < |s| && ')' !in r.value
    ensures r.Some? ==> s[|prefix|..|prefix| + |r.value|] == r.value && s[|prefix| + |r.value|] == ')'
  {
    if !OccursAt(s, prefix, 0) then None
    else
      match IndexOf(s[|prefix|..], ')')
      case None => None
      case Some(k) => Some(s[|prefix|..|prefix| + k])
  }

  /** `<prefix>([^\)]+)\)` at the start of `s`: the group runs up to the first `)`. */
  function MatchUrlTail(s: string, prefix: string): (r: Option<Match>)
  {
    match UrlRegion(s, prefix)
    case None => None
    case Some(g) => if g != [] then Some(Match(|prefix| + |g| + 1, g)) else None
  }

  /**
   * `[^\)]+\/fonts\/([^\)]+)` over the whole of a region free of `)`: the
   * greedy first class makes the split fall on the last `/fonts/` that has at
   * least one character before and after it.
   */
  function FontsTail(region: string): (r: Option<string>)
  {
    if |region| <= |FontsDir| then None
    else
      match LastOccurrence(region, FontsDir, 1, |region| - |FontsDir|)
      case None => None
      case Some(p) => Some(region[p + |FontsDir|..])
  }

  /** `url\([^\)]+\/fonts\/([^\)]+)\)` at the start of `s`. */
  function MatchFontPath(s: string): (r: Option<Match>)
  {
    match UrlRegion(s, UrlOpen)
    case None => None
    case Some(region) =>
      match FontsTail(region)
      case None => None
      case Some(g) => Some(Match(|UrlOpen| + |region| + 1, g))
  }

  /** `href="page-(\d+)\.xhtml"` at the start of `s`. */
  function MatchPageLink(s: string): (r: Option<Match>)
  {
    if !OccursAt(s, PageOpen, 0) then None
    else
      var n := Run(s[|PageOpen|..], IsDigit);
      if 0 < n && OccursAt(s, PageClose, |PageOpen| + n)
      then Some(Match(|PageOpen| + n + |PageClose|, s[|PageOpen|..|PageOpen| + n]))
      else None
  }

  /** The five substitutions, each with the table its replacement function reads. */
  datatype Rule =
    | ImageSrc(images: map<string, string>)
    | ImageUrl(images: map<string, string>)
    | FontPath(fonts: map<string, string>)
    | FontBare(fonts: map<string, string>)
    | PageLink

  /** Whether the rule's pattern matches at the start of `s`, and what it captures. */
  function Find(rule: Rule, s: string): (r: Option<Match>)
    ensures r.Some? ==> 0 < r.value.len <= |s|
  {
    match rule
    case ImageSrc(_) => MatchSrc(s)
    case ImageUrl(_) => MatchUrlTail(s, UrlImages)
    case FontPath(_) => MatchFontPath(s)
    case FontBare(_) => MatchUrlTail(s, UrlFonts)
    case PageLink => MatchPageLink(s)
  }

  /** `table.get(key)` followed by `if uri:` — a missing key and an empty value both fail. */
  function Lookup(table: map<string, string>, key: string): Option<string>
  {
    if key in table && table[key] != "" then Some(table[key]) else None
  }

  /** What the replacement function returns for a match `whole` whose group is `group`. */
  function Rewrite(rule: Rule, whole: string, group: string): string
  {
    match rule
    case ImageSrc(images) =>
      (match Lookup(images, group) case Some(uri) => "src=\"" + uri + "\"" case None => whole)
    case ImageUrl(images) =>
      (match Lookup(images, group) case Some(uri) => "url(" + uri + ")" case None => whole)
    case FontPath(fonts) =>
      (match Lookup(fonts, PathName(group)) case Some(uri) => "url(" + uri + ")" case None => whole)
    case FontBare(fonts) =>
      (match Lookup(fonts, PathName(group)) case Some(uri) => "url(" + uri + ")" case None => whole)
    case PageLink => "href=\"#page-" + group + "\""
  }

  /** A pattern that, where it matches, consumes at least one character of the text it is tried on. */
  ghost predicate Advances(find: string -> Option<Match>)
  {
    forall t :: find(t).Some? ==> 0 < find(t).value.len <= |t|
  }

  /**
   * The scan of `re.sub`: where `find` matches, emit `rewrite(group(0), group(1))`
   * and resume after the match; elsewhere copy one character.
   */
  function Scan(find: string -> Option<Match>, rewrite: (string, string) -> string, s: string): string
    requires Advances(find)
    decreases |s|
  {
    if s == [] then []
    else
      match find(s)
      case Some(m) => rewrite(s[..m.len], m.group) + Scan(find, rewrite, s[m.len..])
      case None => [s[0]] + Scan(find, rewrite, s[1..])
  }

  /** `re.sub(pattern, repl, s)` for the rule's pattern and replacement. */
  function Sub(rule: Rule, s: string): string
  {
    Scan(t => Find(rule, t), (w, g) => Rewrite(rule, w, g), s)
  }

  /** `replace_images_in_html`: the `src="..."` pass, then the `url(...)` pass. */
  function ReplaceImagesInHtml(html: string, images: map<string, string>): string
  {
    Sub(ImageUrl(images), Sub(ImageSrc(images), html))
  }

  /** The two substitutions of `embed_fonts`: paths ending in `/fonts/name`, then bare `fonts/name`. */
  function EmbedFontRefs(css: string, fonts: map<string, string>): string
  {
    Sub(FontBare(fonts), Sub(FontPath(fonts), css))
  }

  /** The link rewrite of `convert_epub`: `href="page-N.xhtml"` becomes `href="#page-N"`. */
  function RewritePageLinks(body: string): string
  {
    Sub(PageLink, body)
  }

  /** `embed_fonts(css, fonts_dir)`: load the font table, then substitute. */
  method EmbedFonts(css: string, dir: Option<seq<Entry>>) returns (r: string)
    ensures r == EmbedFontRefs(css, if dir.None? then map[] else Collect(dir.value, FontUri))
  {
    var fontData := LoadFonts(dir);
    r := Sub(FontPath(fontData), css);
    r := Sub(FontBare(fontData), r);
  }

  // ---------------------------------------------------------------------
  // The scan

  /** Text in which the pattern matches nowhere is copied unchanged. */
  lemma {:induction false} ScanCopies(find: string -> Option<Match>, rewrite: (string, string) -> string, a: string, b: string)
    requires Advances(find)
    requires forall i {:trigger find((a + b)[i..])} :: 0 <= i < |a| ==> find((a + b)[i..]).None?
    ensures Scan(find, rewrite, a + b) == a + Scan(find, rewrite, b)
    decreases |a|
  {
    if a == [] {
      assert a + b == b;
    } else {
      var s := a + b;
      assert s[0..] == s;
      assert s[1..] == a[1..] + b;
      forall i | 0 <= i < |a[1..]|
        ensures find((a[1..] + b)[i..]).None?
      {
        assert (a[1..] + b)[i..] == s[i + 1..];
      }
      ScanCopies(find, rewrite, a[1..], b);
      assert [a[0]] + (a[1..] + Scan(find, rewrite, b)) == a + Scan(find, rewrite, b);
    }
  }

  /** The pattern at the start of `t` is absent, or present with a replacement equal to the matched text. */
  ghost predicate KeepsWith(find: string -> Option<Match>, rewrite: (string, string) -> string, t: string)
    requires Advances(find)
  {
    match find(t)
    case None => true
    case Some(m) => rewrite(t[..m.len], m.group) == t[..m.len]
  }

  /** A scan in which every match is replaced by itself leaves the text as it was. */
  lemma {:induction false} ScanKeeps(find: string -> Option<Match>, rewrite: (string, string) -> string, s: string)
    requires Advances(find)
    requires forall i :: 0 <= i <= |s| ==> KeepsWith(find, rewrite, s[i..])
    ensures Scan(find, rewrite, s) == s
    decreases |s|
  {
    if s != [] {
      assert s[0..] == s;
      var j: nat := match find(s) case Some(m) => m.len case None => 1;
      var t := s[j..];
      forall i | 0 <= i <= |t|
        ensures KeepsWith(find, rewrite, t[i..])
      {
        assert t[i..] == s[j + i..];
      }
      ScanKeeps(find, rewrite, t);
      assert s[..j] + t == s;
    }
  }

  /** Text in which the rule's pattern matches nowhere is copied unchanged. */
  lemma SubCopies(rule: Rule, a: string, b: string)
    requires forall i :: 0 <= i < |a| ==> Find(rule, (a + b)[i..]).None?
    ensures Sub(rule, a + b) == a + Sub(rule, b)
  {
    ScanCopies(t => Find(rule, t), (w, g) => Rewrite(rule, w, g), a, b);
  }

  /** Unfolding step: a match at the start is replaced by what the replacement function returns, and the scan resumes after it. */
  lemma SubAt(rule: Rule, x: string, u: string, group: string)
    requires Find(rule, x + u) == Some(Match(|x|, group))
    ensures Sub(rule, x + u) == Rewrite(rule, x, group) + Sub(rule, u)
  {
    var s := x + u;
    assert s[..|x|] == x;
    assert s[|x|..] == u;
  }

  /** The pattern at the start of `t` is absent, or present with a replacement equal to the matched text. */
  predicate Keeps(rule: Rule, t: string)
  {
    match Find(rule, t)
    case None => true
    case Some(m) => Rewrite(rule, t[..m.len], m.group) == t[..m.len]
  }

  /** A scan in which every match is replaced by itself leaves the text as it was. */
  lemma SubKeeps(rule: Rule, s: string)
    requires forall i :: 0 <= i <= |s| ==> Keeps(rule, s[i..])
    ensures Sub(rule, s) == s
  {
    var find, rewrite := t => Find(rule, t), (w, g) => Rewrite(rule, w, g);
    forall i | 0 <= i <= |s|
      ensures KeepsWith(find, rewrite, s[i..])
    {
      assert Keeps(rule, s[i..]);
    }
    ScanKeeps(find, rewrite, s);
  }

  /** The literal text with which every match of the rule begins. */
  function Opener(rule: Rule): string
  {
    match rule
    case ImageSrc(_) => SrcOpen
    case ImageUrl(_) => UrlImages
    case FontPath(_) => UrlOpen
    case FontBare(_) => UrlFonts
    case PageLink => PageOpen
  }

  /** A match at index `i` of `s` begins with the rule's opener. */
  lemma FindNeedsOpener(rule: Rule, s: string, i: nat)
    requires i <= |s|
    ensures Find(rule, s[i..]).Some? ==> OccursAt(s, Opener(rule), i)
  {
    var t, p := s[i..], Opener(rule);
    if Find(rule, t).Some? {
      assert OccursAt(t, p, 0);
      assert t[..|p|] == s[i..i + |p|];
    }
  }

  /** A pass copies a text that holds no opener of the rule and ends with a character the opener lacks. */
  lemma SubSkips(rule: Rule, a: string, b: string)
    requires Absent(a, Opener(rule)) && a != [] && a[|a| - 1] !in Opener(rule)
    ensures Sub(rule, a + b) == a + Sub(rule, b)
  {
    NoneStartsIn(a, b, Opener(rule));
    forall i | 0 <= i < |a|
      ensures Find(rule, (a + b)[i..]).None?
    {
      FindNeedsOpener(rule, a + b, i);
    }
    SubCopies(rule, a, b);
  }

  /** `KeepsIn` for any finder and rewriter: the match at the start of `t`, if any, ends by `n` and is replaced by itself. */
  ghost predicate KeepsWithin(find: string -> Option<Match>, rewrite: (string, string) -> string, t: string, n: nat)
    requires Advances(find)
  {
    match find(t)
    case None => true
    case Some(m) => m.len <= n && rewrite(t[..m.len], m.group) == t[..m.len]
  }

  /** In `s`, what starts at index `i` is kept and ends by index `e`. */
  ghost predicate KeepsFrom(find: string -> Option<Match>, rewrite: (string, string) -> string, s: string, i: nat, e: nat)
    requires Advances(find)
  {
    i < e <= |s| ==> KeepsWithin(find, rewrite, s[i..], e - i)
  }

  /** Dropping the first `j` characters moves every kept position `j` to the left. */
  lemma KeepsFromShift(find: string -> Option<Match>, rewrite: (string, string) -> string, s: string, e: nat, j: nat, t: string, n: nat)
    requires Advances(find) && j <= e <= |s| && t == s[j..] && n == e - j
    requires forall i :: 0 <= i < e ==> KeepsFrom(find, rewrite, s, i, e)
    ensures forall i :: 0 <= i < n ==> KeepsFrom(find, rewrite, t, i, n)
  {
    forall i | 0 <= i < n
      ensures KeepsFrom(find, rewrite, t, i, n)
    {
      assert t[i..] == s[j + i..];
      assert KeepsFrom(find, rewrite, s, j + i, e);
    }
  }

  /**
   * One step of a scan that keeps what it finds at the start: the match when
   * there is one, and otherwise the first character.
   */
  lemma ScanKeepStep(find: string -> Option<Match>, rewrite: (string, string) -> string, s: string, e: nat) returns (j: nat)
    requires Advances(find) && 0 < e <= |s| && KeepsFrom(find, rewrite, s, 0, e)
    ensures 0 < j <= e && Scan(find, rewrite, s) == s[..j] + Scan(find, rewrite, s[j..])
  {
    assert s[0..] == s;
    match find(s)
    case Some(m) =>
      j := m.len;
    case None =>
      j := 1;
      assert s[..1] == [s[0]];
  }

  /** The first `j` characters of `s`, then the first `n` of what follows, then a tail, make the first `j + n` and the tail. */
  lemma JoinPieces(s: string, e: nat, j: nat, t: string, n: nat, whole: string, rest: string, tail: string)
    requires j <= e <= |s| && t == s[j..] && n == e - j
    requires whole == s[..j] + rest && rest == t[..n] + tail
    ensures t[n..] == s[e..] && whole == s[..e] + tail
  {
    assert s[..j] + t[..n] == s[..e];
  }

  /** A scan copies the first `e` characters of `s` when every match among them ends by `e` and is replaced by itself. */
  lemma {:induction false} ScanKeepsTo(find: string -> Option<Match>, rewrite: (string, string) -> string, s: string, e: nat)
    requires Advances(find) && e <= |s|
    requires forall i :: 0 <= i < e ==> KeepsFrom(find, rewrite, s, i, e)
    ensures Scan(find, rewrite, s) == s[..e] + Scan(find, rewrite, s[e..])
    decreases e
  {
    if e == 0 {
      assert s[..0] + Scan(find, rewrite, s) == Scan(find, rewrite, s);
    } else {
      var j := ScanKeepStep(find, rewrite, s, e);
      var t, n := s[j..], e - j;
      KeepsFromShift(find, rewrite, s, e, j, t, n);
      ScanKeepsTo(find, rewrite, t, n);
      JoinPieces(s, e, j, t, n, Scan(find, rewrite, s), Scan(find, rewrite, t), Scan(find, rewrite, t[n..]));
    }
  }

  /**
   * The pattern at the start of `t` is absent, or present within the first
   * `n` characters with a replacement equal to the matched text.
   */
  predicate KeepsIn(rule: Rule, t: string, n: nat)
  {
    match Find(rule, t)
    case None => true
    case Some(m) => m.len <= n && Rewrite(rule, t[..m.len], m.group) == t[..m.len]
  }

  /** A pass copies a prefix in which every match ends inside the prefix and is replaced by itself. */
  lemma SubKeepsIn(rule: Rule, a: string, b: string)
    requires forall i :: 0 <= i < |a| ==> KeepsIn(rule, (a + b)[i..], |a| - i)
    ensures Sub(rule, a + b) == a + Sub(rule, b)
  {
    var find, rewrite := t => Find(rule, t), (w, g) => Rewrite(rule, w, g);
    var s := a + b;
    forall i | 0 <= i < |a|
      ensures KeepsFrom(find, rewrite, s, i, |a|)
    {
      assert KeepsIn(rule, s[i..], |a| - i);
    }
    ScanKeepsTo(find, rewrite, s, |a|);
    assert s[..|a|] == a && s[|a|..] == b;
  }

  /** With an empty table, the image and font rules keep every match. */
  lemma EmptyTableKeeps(rule: Rule, t: string)
    requires !rule.PageLink? && (if rule.ImageSrc? || rule.ImageUrl? then rule.images else rule.fonts) == map[]
    ensures Keeps(rule, t)
  {
  }

  /** Without images, `replace_images_in_html` returns the page unchanged. */
  lemma NoImagesNoChange(html: string)
    ensures ReplaceImagesInHtml(html, map[]) == html
  {
    forall i | 0 <= i <= |html|
      ensures Keeps(ImageSrc(map[]), html[i..])
    {
      EmptyTableKeeps(ImageSrc(map[]), html[i..]);
    }
    SubKeeps(ImageSrc(map[]), html);
    forall i | 0 <= i <= |html|
      ensures Keeps(ImageUrl(map[]), html[i..])
    {
      EmptyTableKeeps(ImageUrl(map[]), html[i..]);
    }
    SubKeeps(ImageUrl(map[]), html);
  }

  /** Without fonts, the font substitutions return the style sheet unchanged. */
  lemma NoFontsNoChange(css: string)
    ensures EmbedFontRefs(css, map[]) == css
  {
    forall i | 0 <= i <= |css|
      ensures Keeps(FontPath(map[]), css[i..])
    {
      EmptyTableKeeps(FontPath(map[]), css[i..]);
    }
    SubKeeps(FontPath(map[]), css);
    forall i | 0 <= i <= |css|
      ensures Keeps(FontBare(map[]), css[i..])
    {
      EmptyTableKeeps(FontBare(map[]), css[i..]);
    }
    SubKeeps(FontBare(map[]), css);
  }

  // ---------------------------------------------------------------------
  // The individual patterns

  /** Unfolding step: the replacement for an image reference whose group is `name`. */
  lemma RewriteImageIs(rule: Rule, whole: string, name: string, open: string, close: string)
    requires (rule.ImageSrc? && open == "src=\"" && close == "\"") || (rule.ImageUrl? && open == "url(" && close == ")")
    ensures Rewrite(rule, whole, name) ==
      if name in rule.images && rule.images[name] != "" then open + rule.images[name] + close else whole
  {
  }

  /** Unfolding step: the replacement for a font reference whose group has the file name `key`. */
  lemma RewriteFontIs(rule: Rule, whole: string, group: string, key: string)
    requires (rule.FontPath? || rule.FontBare?) && PathName(group) == key
    ensures Rewrite(rule, whole, group) ==
      if key in rule.fonts && rule.fonts[key] != "" then "url(" + rule.fonts[key] + ")" else whole
  {
  }

  /** `src="images/NAME"` for a plain file name is one match whose group is the name. */
  lemma MatchSrcOf(name: string, u: string)
    requires name != [] && '"' !in name && '/' !in name
    ensures MatchSrc(SrcOpen + name + "\"" + u) == Some(Match(|SrcOpen + name + "\""|, name))
  {
    var s := SrcOpen + name + "\"" + u;
    assert s[..|SrcOpen|] == SrcOpen;
    var t := s[|SrcOpen|..];
    assert t == name + "\"" + u;
    assert t[|name|] == '"';
    RunIs(t, NameChar, |name|);
    assert s[|SrcOpen|..|SrcOpen| + |name|] == name;
  }

  /**
   * An image source is replaced by the data URI stored under its file name;
   * a name that is missing or maps to an empty string is left as written.
   */
  lemma ImageSrcReference(name: string, images: map<string, string>, u: string)
    requires name != [] && '"' !in name && '/' !in name
    ensures Sub(ImageSrc(images), SrcOpen + name + "\"" + u) ==
      (if name in images && images[name] != "" then "src=\"" + images[name] + "\"" else SrcOpen + name + "\"")
      + Sub(ImageSrc(images), u)
  {
    var x := SrcOpen + name + "\"";
    assert Find(ImageSrc(images), x + u) == Some(Match(|x|, name)) by {
      MatchSrcOf(name, u);
    }
    SubAt(ImageSrc(images), x, u, name);
    RewriteImageIs(ImageSrc(images), x, name, "src=\"", "\"");
  }

  /** A source below a subdirectory of `images/` does not match the source pattern. */
  lemma ImageSrcSkipsSubdirectory(dir: string, rest: string)
    requires '"' !in dir && '/' !in dir
    ensures MatchSrc(SrcOpen + dir + "/" + rest) == None
  {
    var s := SrcOpen + dir + "/" + rest;
    assert s[..|SrcOpen|] == SrcOpen;
    var t := s[|SrcOpen|..];
    assert t == dir + "/" + rest;
    assert t[|dir|] == '/';
    assert forall i :: 0 <= i < |dir| ==> t[i] == dir[i];
    RunIs(t, NameChar, |dir|);
  }

  /** In `<prefix>NAME)...` the region is the name. */
  lemma UrlRegionOf(prefix: string, name: string, u: string)
    requires ')' !in name
    ensures UrlRegion(prefix + name + ")" + u, prefix) == Some(name)
  {
    var s := prefix + name + ")" + u;
    assert s[..|prefix|] == prefix;
    var t := s[|prefix|..];
    assert t == name + ")" + u;
    IndexOfFirst(t, ')', |name|);
    assert s[|prefix|..|prefix| + |name|] == name;
  }

  /** `<prefix>NAME)` for a name without `)` is one match whose group is the name. */
  lemma MatchUrlTailOf(prefix: string, name: string, u: string)
    requires name != [] && ')' !in name
    ensures MatchUrlTail(prefix + name + ")" + u, prefix) == Some(Match(|prefix + name + ")"|, name))
  {
    UrlRegionOf(prefix, name, u);
  }

  /** An image `url(images/NAME)` is replaced by `url(<data URI>)` when the name has a non-empty entry. */
  lemma ImageUrlReference(name: string, images: map<string, string>, u: string)
    requires name != [] && ')' !in name
    ensures Sub(ImageUrl(images), UrlImages + name + ")" + u) ==
      (if name in images && images[name] != "" then "url(" + images[name] + ")" else UrlImages + name + ")")
      + Sub(ImageUrl(images), u)
  {
    var x := UrlImages + name + ")";
    assert Find(ImageUrl(images), x + u) == Some(Match(|x|, name)) by {
      MatchUrlTailOf(UrlImages, name, u);
    }
    SubAt(ImageUrl(images), x, u, name);
    RewriteImageIs(ImageUrl(images), x, name, "url(", ")");
  }

  /** A bare `url(fonts/NAME)` is replaced by `url(<data URI>)` when the file name has a non-empty entry. */
  lemma FontBareReference(name: string, fonts: map<string, string>, u: string)
    requires name != [] && name != "." && ')' !in name && '/' !in name
    ensures Sub(FontBare(fonts), UrlFonts + name + ")" + u) ==
      (if name in fonts && fonts[name] != "" then "url(" + fonts[name] + ")" else UrlFonts + name + ")")
      + Sub(FontBare(fonts), u)
  {
    var x := UrlFonts + name + ")";
    assert Find(FontBare(fonts), x + u) == Some(Match(|x|, name)) by {
      MatchUrlTailOf(UrlFonts, name, u);
    }
    SubAt(FontBare(fonts), x, u, name);
    assert PathName(name) == name;
    RewriteFontIs(FontBare(fonts), x, name, name);
  }

  /** The bare font pattern looks a nested path up by its last component. */
  lemma FontBareNested(sub: string, name: string, fonts: map<string, string>, u: string)
    requires ')' !in sub && name != [] && name != "." && ')' !in name && '/' !in name
    ensures Sub(FontBare(fonts), UrlFonts + (sub + "/" + name) + ")" + u) ==
      (if name in fonts && fonts[name] != "" then "url(" + fonts[name] + ")" else UrlFonts + (sub + "/" + name) + ")")
      + Sub(FontBare(fonts), u)
  {
    var path := sub + "/" + name;
    var x := UrlFonts + path + ")";
    assert Find(FontBare(fonts), x + u) == Some(Match(|x|, path)) by {
      MatchUrlTailOf(UrlFonts, path, u);
    }
    SubAt(FontBare(fonts), x, u, path);
    PathNameOfChild(sub, name);
    RewriteFontIs(FontBare(fonts), x, path, name);
  }

  /** In `DIR/fonts/NAME` with a plain name, the last `/fonts/` is the one before the name. */
  lemma FontsTailOf(dir: string, name: string)
    requires dir != [] && name != [] && '/' !in name
    ensures FontsTail(dir + FontsDir + name) == Some(name)
  {
    var r := dir + FontsDir + name;
    assert r[|dir|..|dir| + |FontsDir|] == FontsDir;
    forall j | |dir| < j < |r| - |FontsDir|
      ensures !OccursAt(r, FontsDir, j)
    {
      assert r[j + 6] == name[j + 6 - |dir| - |FontsDir|] && FontsDir[6] == '/';
    }
    LastOccurrenceIs(r, FontsDir, 1, |r| - |FontsDir|, |dir|);
    assert r[|dir| + |FontsDir|..] == name;
  }

  /** `url(DIR/fonts/NAME)` is one match whose group is the file name. */
  lemma MatchFontPathOf(dir: string, name: string, u: string)
    requires dir != [] && ')' !in dir && name != [] && ')' !in name && '/' !in name
    ensures MatchFontPath(UrlOpen + (dir + FontsDir + name) + ")" + u) ==
      Some(Match(|UrlOpen + (dir + FontsDir + name) + ")"|, name))
  {
    UrlRegionOf(UrlOpen, dir + FontsDir + name, u);
    FontsTailOf(dir, name);
  }

  /**
   * A font `url(DIR/fonts/NAME)` is replaced by `url(<data URI>)` when the
   * file name has a non-empty entry, whatever the directory before `/fonts/`.
   */
  lemma FontPathReference(dir: string, name: string, fonts: map<string, string>, u: string)
    requires dir != [] && ')' !in dir && name != [] && name != "." && ')' !in name && '/' !in name
    ensures Sub(FontPath(fonts), UrlOpen + (dir + FontsDir + name) + ")" + u) ==
      (if name in fonts && fonts[name] != "" then "url(" + fonts[name] + ")" else UrlOpen + (dir + FontsDir + name) + ")")
      + Sub(FontPath(fonts), u)
  {
    var x := UrlOpen + (dir + FontsDir + name) + ")";
    assert Find(FontPath(fonts), x + u) == Some(Match(|x|, name)) by {
      MatchFontPathOf(dir, name, u);
    }
    SubAt(FontPath(fonts), x, u, name);
    assert PathName(name) == name;
    RewriteFontIs(FontPath(fonts), x, name, name);
  }

  /**
   * In `DIR/fonts/PATH`, where `fonts/PATH` holds no `/fonts/`, the last
   * `/fonts/` is the one after `DIR`, so the group is the whole of `PATH`.
   */
  lemma FontsTailOfGroup(dir: string, path: string)
    requires dir != [] && path != [] && Absent("fonts/" + path, FontsDir)
    ensures FontsTail(dir + FontsDir + path) == Some(path)
  {
    var r := dir + FontsDir + path;
    var y := "fonts/" + path;
    assert r == (dir + "/") + y;
    assert r[|dir|..|dir| + |FontsDir|] == FontsDir;
    forall j | |dir| < j < |r| - |FontsDir|
      ensures !OccursAt(r, FontsDir, j)
    {
      OccursInSuffix(dir + "/", y, FontsDir, j);
      assert !OccursAt(y, FontsDir, j - |dir| - 1);
    }
    LastOccurrenceIs(r, FontsDir, 1, |r| - |FontsDir|, |dir|);
    assert r[|dir| + |FontsDir|..] == path;
  }

  /** `url(DIR/fonts/PATH)`, with no further `/fonts/` in `fonts/PATH`, is one match whose group is `PATH`. */
  lemma MatchFontPathOfGroup(dir: string, path: string, u: string)
    requires dir != [] && ')' !in dir && path != [] && ')' !in path && Absent("fonts/" + path, FontsDir)
    ensures MatchFontPath(UrlOpen + (dir + FontsDir + path) + ")" + u) ==
      Some(Match(|UrlOpen + (dir + FontsDir + path) + ")"|, path))
  {
    var region := dir + FontsDir + path;
    UrlRegionOf(UrlOpen, region, u);
    FontsTailOfGroup(dir, path);
    MatchFontPathFrom(UrlOpen + region + ")" + u, region, path);
  }

  /** The first font pattern matches where the `url(...)` region splits at a last `/fonts/`. */
  lemma MatchFontPathFrom(s: string, region: string, path: string)
    requires UrlRegion(s, UrlOpen) == Some(region) && FontsTail(region) == Some(path)
    ensures MatchFontPath(s) == Some(Match(|UrlOpen| + |region| + 1, path))
  {
  }

  /**
   * A font `url(DIR/fonts/SUB/NAME)` is looked up under its file name `NAME`
   * alone, as `Path(font_path).name` does: it is replaced when `NAME` has a
   * non-empty entry and kept otherwise. Any reference with several `/fonts/`
   * fits, taking `DIR` up to the last of them.
   */
  lemma FontPathNested(dir: string, sub: string, name: string, fonts: map<string, string>, u: string)
    requires dir != [] && ')' !in dir && ')' !in sub && name != [] && name != "." && ')' !in name && '/' !in name
    requires Absent("fonts/" + (sub + "/" + name), FontsDir)
    ensures Sub(FontPath(fonts), UrlOpen + (dir + FontsDir + (sub + "/" + name)) + ")" + u) ==
      (if name in fonts && fonts[name] != "" then "url(" + fonts[name] + ")"
       else UrlOpen + (dir + FontsDir + (sub + "/" + name)) + ")")
      + Sub(FontPath(fonts), u)
  {
    var path := sub + "/" + name;
    var x := UrlOpen + (dir + FontsDir + path) + ")";
    MatchFontPathOfGroup(dir, path, u);
    SubAt(FontPath(fonts), x, u, path);
    PathNameOfChild(sub, name);
    RewriteFontIs(FontPath(fonts), x, path, name);
  }

  /** A link to `page-N.xhtml` becomes the anchor `#page-N`, keeping the digits. */
  lemma PageLinkReference(digits: string, u: string)
    requires digits != [] && AllDigits(digits)
    ensures RewritePageLinks(PageOpen + digits + PageClose + u) == "href=\"#page-" + digits + "\"" + RewritePageLinks(u)
  {
    var x := PageOpen + digits + PageClose;
    var s := x + u;
    assert s[..|PageOpen|] == PageOpen;
    var t := s[|PageOpen|..];
    assert t == digits + PageClose + u;
    assert t[|digits|] == '.';
    RunIs(t, IsDigit, |digits|);
    assert s[|PageOpen|..|PageOpen| + |digits|] == digits;
    assert s[|PageOpen| + |digits|..|PageOpen| + |digits| + |PageClose|] == PageClose;
    assert MatchPageLink(s) == Some(Match(|x|, digits));
    SubAt(PageLink, x, u, digits);
  }

  /** A link whose page number is not followed by `.xhtml"` is not a match. */
  lemma PageLinkNeedsExtension(digits: string, rest: string)
    requires AllDigits(digits) && rest != [] && !IsDigit(rest[0]) && !OccursAt(rest, PageClose, 0)
    ensures MatchPageLink(PageOpen + digits + rest) == None
  {
    var s := PageOpen + digits + rest;
    assert s[..|PageOpen|] == PageOpen;
    var t := s[|PageOpen|..];
    assert t == digits + rest;
    assert t[|digits|] == rest[0];
    RunIs(t, IsDigit, |digits|);
    OccursInSuffix(PageOpen + digits, rest, PageClose, |PageOpen| + |digits|);
  }

  // ---------------------------------------------------------------------
  // Both passes of a function together

  /**
   * `replace_images_in_html` on a page that opens with `src="images/NAME"`:
   * the source is rewritten once, and the `url(...)` pass leaves the rewrite
   * alone, provided the data URI holds no `url(images/`.
   */
  lemma ImagesInHtml(name: string, images: map<string, string>, u: string)
    requires name != [] && '"' !in name && '/' !in name
    requires name in images ==> Absent(images[name], UrlImages)
    ensures ReplaceImagesInHtml(SrcOpen + name + "\"" + u, images) ==
      (if name in images && images[name] != "" then "src=\"" + images[name] + "\"" else SrcOpen + name + "\"")
      + ReplaceImagesInHtml(u, images)
  {
    var r := if name in images && images[name] != "" then "src=\"" + images[name] + "\"" else SrcOpen + name + "\"";
    ImageSrcReference(name, images, u);
    assert UrlImages[0] == 'u' && UrlImages[10] == '/' && '"' !in UrlImages;
    if name in images && images[name] != "" {
      AbsentFramed("src=\"", images[name], "\"", UrlImages);
    } else {
      AbsentWithout(name, UrlImages, 10);
      AbsentFramed(SrcOpen, name, "\"", UrlImages);
    }
    SubSkips(ImageUrl(images), r, Sub(ImageSrc(images), u));
  }

  /**
   * `replace_images_in_html` on a page that opens with `url(images/NAME)`:
   * the `src` pass cannot match inside it, so only the `url(...)` pass
   * rewrites it.
   */
  lemma ImageUrlInHtml(name: string, images: map<string, string>, u: string)
    requires name != [] && ')' !in name && '"' !in name
    ensures ReplaceImagesInHtml(UrlImages + name + ")" + u, images) ==
      (if name in images && images[name] != "" then "url(" + images[name] + ")" else UrlImages + name + ")")
      + ReplaceImagesInHtml(u, images)
  {
    var x := UrlImages + name + ")";
    assert SrcOpen[4] == '"' && '"' !in x && x[|x| - 1] !in SrcOpen;
    AbsentWithout(x, SrcOpen, 4);
    SubSkips(ImageSrc(images), x, u);
    ImageUrlReference(name, images, Sub(ImageSrc(images), u));
  }

  /** A region with no `/` from its seventh character on holds no `/fonts/` after its first character. */
  lemma FontsTailNone(region: string)
    requires forall j :: 6 <= j < |region| ==> region[j] != '/'
    ensures FontsTail(region) == None
  {
    assert FontsDir[6] == '/';
    forall p: nat | p < |region|
      ensures !OccursAt(region, FontsDir, p)
    {
      OccursAtChar(region, FontsDir, p, 6);
    }
  }

  /** A reference `body)` whose body has no `)` holds `)` only at its end. */
  lemma ClosedOnce(body: string)
    requires ')' !in body
    ensures var x := body + ")"; x[|x| - 1] == ')' && ')' !in x[..|x| - 1]
  {
    assert (body + ")")[..|body|] == body;
  }

  /** A region free of `/fonts/` gives the first font pattern nothing to split at. */
  lemma FontsTailAbsent(region: string)
    requires Absent(region, FontsDir)
    ensures FontsTail(region) == None
  {
  }

  /** A region that is found ends at the first `)` after the prefix. */
  lemma RegionEnds(t: string, prefix: string, q: nat)
    requires ')' !in prefix && q < |t| && t[q] == ')'
    requires forall j :: |prefix| <= j < q ==> t[j] != ')'
    requires UrlRegion(t, prefix).Some?
    ensures |prefix| <= q && UrlRegion(t, prefix).value == t[|prefix|..q]
  {
    var g := UrlRegion(t, prefix).value;
    forall k | 0 <= k < |prefix|
      ensures t[k] != ')'
    {
      OccursAtChar(t, prefix, 0, k);
    }
    forall k | |prefix| <= k < |prefix| + |g|
      ensures t[k] != ')'
    {
      assert t[k] == g[k - |prefix|];
    }
  }

  /**
   * In `x + w`, where `x` holds `)` only as its last character, the region
   * after a `<prefix>` that starts inside `x` runs to the end of `x`.
   */
  lemma RegionInside(x: string, w: string, prefix: string, i: nat)
    requires x != [] && x[|x| - 1] == ')' && ')' !in x[..|x| - 1] && ')' !in prefix
    requires i < |x| && UrlRegion((x + w)[i..], prefix).Some?
    ensures i + |prefix| < |x| && UrlRegion((x + w)[i..], prefix).value == x[i + |prefix|..|x| - 1]
  {
    var t := (x + w)[i..];
    var q := |x| - 1 - i;
    FrontOfJoin(x, w, i, t);
    RegionEnds(t, prefix, q);
  }

  /** Read from index `i < |x|`, `x + w` starts with the rest of `x`; a `)` free front is seen as such. */
  lemma FrontOfJoin(x: string, w: string, i: nat, t: string)
    requires x != [] && x[|x| - 1] == ')' && ')' !in x[..|x| - 1]
    requires i < |x| && t == (x + w)[i..]
    ensures t[|x| - 1 - i] == ')' && forall j :: 0 <= j < |x| - 1 - i ==> t[j] != ')'
    ensures forall a, b :: 0 <= a <= b <= |x| - 1 - i ==> t[a..b] == x[i + a..i + b]
  {
    forall j | 0 <= j < |x| - 1 - i
      ensures t[j] != ')'
    {
      assert t[j] == x[..|x| - 1][i + j];
    }
    forall a, b | 0 <= a <= b <= |x| - 1 - i
      ensures t[a..b] == x[i + a..i + b]
    {
      assert t[a..b] == (x + w)[i + a..i + b];
    }
  }

  /** The first font pattern matches nowhere inside a bare `url(fonts/NAME)`. */
  lemma FontPathNotInBare(name: string, w: string, i: nat)
    requires ')' !in name && '/' !in name && i < |UrlFonts + name + ")"|
    ensures MatchFontPath((UrlFonts + name + ")" + w)[i..]) == None
  {
    var x := UrlFonts + name + ")";
    var t := (x + w)[i..];
    assert x[..|x| - 1] == UrlFonts + name;
    if UrlRegion(t, UrlOpen).Some? {
      RegionInside(x, w, UrlOpen, i);
      var region := UrlRegion(t, UrlOpen).value;
      forall j | 6 <= j < |region|
        ensures region[j] != '/'
      {
        assert region[j] == name[i + |UrlOpen| + j - |UrlFonts|];
      }
      FontsTailNone(region);
    }
  }

  /** Every tail of `x` that starts before the `/` in front of `NAME` has the name `NAME`. */
  lemma PathNameOfTail(x: string, name: string, k: nat, n: nat)
    requires name != [] && name != "." && '/' !in name
    requires 0 < n && n + |name| < |x| && x[n - 1] == '/' && x[n..|x| - 1] == name && k <= n
    ensures PathName(x[k..|x| - 1]) == name
  {
    if k == n {
      PathNameOfPlain(name);
    } else {
      var sub := x[k..n - 1];
      assert x[k..|x| - 1] == sub + "/" + name;
      PathNameOfChild(sub, name);
    }
  }

  /**
   * In a reference `x` that ends with `/NAME)` and holds `)` only at its end,
   * a match of the bare font pattern that starts anywhere inside ends with
   * the reference and is looked up under `NAME`, so a name without an entry
   * keeps it.
   */
  lemma BareKeepsIn(x: string, name: string, n: nat, fonts: map<string, string>, w: string, i: nat)
    requires x != [] && x[|x| - 1] == ')' && ')' !in x[..|x| - 1]
    requires name != [] && name != "." && '/' !in name && (name !in fonts || fonts[name] == "")
    requires 0 < n && n + |name| + 1 == |x| && x[n - 1] == '/' && x[n..|x| - 1] == name
    requires i < |x|
    ensures KeepsIn(FontBare(fonts), (x + w)[i..], |x| - i)
  {
    var t := (x + w)[i..];
    if UrlRegion(t, UrlFonts).Some? {
      BareRegionInside(x, name, n, w, i);
      assert t[..|x| - i] == x[i..];
    }
  }

  /** The group of a bare font match that starts inside such a reference, and its file name. */
  lemma BareRegionInside(x: string, name: string, n: nat, w: string, i: nat)
    requires x != [] && x[|x| - 1] == ')' && ')' !in x[..|x| - 1]
    requires name != [] && name != "." && '/' !in name
    requires 0 < n && n + |name| + 1 == |x| && x[n - 1] == '/' && x[n..|x| - 1] == name
    requires i < |x| && UrlRegion((x + w)[i..], UrlFonts).Some?
    ensures i + |UrlFonts| < |x|
    ensures UrlRegion((x + w)[i..], UrlFonts).value == x[i + |UrlFonts|..|x| - 1]
    ensures PathName(x[i + |UrlFonts|..|x| - 1]) == name
  {
    var t := (x + w)[i..];
    assert ')' !in UrlFonts;
    RegionInside(x, w, UrlFonts, i);
    assert t[9] == x[i + 9] && UrlFonts[9] == '/';
    assert forall j :: n <= j < |x| - 1 ==> x[j] == name[j - n];
    assert i + 9 < n;
    PathNameOfTail(x, name, i + |UrlFonts|, n);
  }

  /**
   * What the first font pattern leaves of a reference `x` ending in `/NAME)`
   * passes through the bare font pattern unchanged: the data URI that
   * replaced it on a hit, or `x` itself on a miss.
   */
  lemma FontRefThenBare(x: string, name: string, fonts: map<string, string>, v: string)
    requires x != [] && x[|x| - 1] == ')' && ')' !in x[..|x| - 1]
    requires name != [] && name != "." && '/' !in name
    requires |name| + 1 < |x| && x[|x| - 2 - |name|] == '/' && x[|x| - 1 - |name|..|x| - 1] == name
    requires name in fonts ==> Absent("url(" + fonts[name] + ")", UrlFonts)
    ensures var first := if name in fonts && fonts[name] != "" then "url(" + fonts[name] + ")" else x;
      Sub(FontBare(fonts), first + v) == first + Sub(FontBare(fonts), v)
  {
    if name in fonts && fonts[name] != "" {
      assert ')' !in UrlFonts;
      SubSkips(FontBare(fonts), "url(" + fonts[name] + ")", v);
    } else {
      var n := |x| - 1 - |name|;
      forall i | 0 <= i < |x|
        ensures KeepsIn(FontBare(fonts), (x + v)[i..], |x| - i)
      {
        BareKeepsIn(x, name, n, fonts, v, i);
      }
      SubKeepsIn(FontBare(fonts), x, v);
    }
  }

  /**
   * `embed_fonts` on a style sheet that opens with `url(DIR/fonts/NAME)`:
   * the reference is rewritten once by the first pattern, and the second
   * pattern leaves the result alone, provided the data URI does not make
   * `url(<uri>)` hold `url(fonts/`.
   */
  lemma FontPathInCss(dir: string, name: string, fonts: map<string, string>, u: string)
    requires dir != [] && ')' !in dir && name != [] && name != "." && ')' !in name && '/' !in name
    requires name in fonts ==> Absent("url(" + fonts[name] + ")", UrlFonts)
    ensures EmbedFontRefs(UrlOpen + (dir + FontsDir + name) + ")" + u, fonts) ==
      (if name in fonts && fonts[name] != "" then "url(" + fonts[name] + ")" else UrlOpen + (dir + FontsDir + name) + ")")
      + EmbedFontRefs(u, fonts)
  {
    var x := UrlOpen + (dir + FontsDir + name) + ")";
    FontPathReference(dir, name, fonts, u);
    var n := |x| - 1 - |name|;
    assert x[..|x| - 1] == UrlOpen + (dir + FontsDir + name);
    assert ')' !in x[..|x| - 1];
    assert x[n - 1] == '/' && x[n..|x| - 1] == name;
    FontRefThenBare(x, name, fonts, Sub(FontPath(fonts), u));
  }


  /**
   * `embed_fonts` on a style sheet that opens with `url(fonts/NAME)`: the
   * first pattern leaves it alone and the second rewrites it once.
   */
  lemma FontBareInCss(name: string, fonts: map<string, string>, u: string)
    requires name != [] && name != "." && ')' !in name && '/' !in name
    ensures EmbedFontRefs(UrlFonts + name + ")" + u, fonts) ==
      (if name in fonts && fonts[name] != "" then "url(" + fonts[name] + ")" else UrlFonts + name + ")")
      + EmbedFontRefs(u, fonts)
  {
    var x := UrlFonts + name + ")";
    forall i | 0 <= i < |x|
      ensures Find(FontPath(fonts), (x + u)[i..]).None?
    {
      FontPathNotInBare(name, u, i);
    }
    SubCopies(FontPath(fonts), x, u);
    FontBareReference(name, fonts, Sub(FontPath(fonts), u));
  }

  /** A reference `A + (B + (C/NAME)))` with no `)` before its end ends with `/NAME)`. */
  lemma EndsWithName(a: string, b: string, c: string, name: string, x: string)
    requires ')' !in a && ')' !in b && ')' !in c && ')' !in name && x == a + (b + (c + "/" + name)) + ")"
    ensures x[|x| - 1] == ')' && ')' !in x[..|x| - 1]
    ensures |name| + 1 < |x| && x[|x| - 2 - |name|] == '/' && x[|x| - 1 - |name|..|x| - 1] == name
  {
    assert x[..|x| - 1] == a + (b + (c + "/" + name));
    assert x[|x| - 1 - |name|..|x| - 1] == name;
  }


  /**
   * `embed_fonts` on a style sheet that opens with `url(DIR/fonts/SUB/NAME)`:
   * the first pattern rewrites it once, looked up under `NAME`, and the
   * second pattern leaves the result alone, under the same condition on the
   * data URI as `FontPathInCss`.
   */
  lemma FontPathNestedInCss(dir: string, sub: string, name: string, fonts: map<string, string>, u: string)
    requires dir != [] && ')' !in dir && ')' !in sub && name != [] && name != "." && ')' !in name && '/' !in name
    requires Absent("fonts/" + (sub + "/" + name), FontsDir)
    requires name in fonts ==> Absent("url(" + fonts[name] + ")", UrlFonts)
    ensures EmbedFontRefs(UrlOpen + (dir + FontsDir + (sub + "/" + name)) + ")" + u, fonts) ==
      (if name in fonts && fonts[name] != "" then "url(" + fonts[name] + ")"
       else UrlOpen + (dir + FontsDir + (sub + "/" + name)) + ")")
      + EmbedFontRefs(u, fonts)
  {
    var x := UrlOpen + (dir + FontsDir + (sub + "/" + name)) + ")";
    FontPathNested(dir, sub, name, fonts, u);
    EndsWithName(UrlOpen, dir + FontsDir, sub, name, x);
    FontRefThenBare(x, name, fonts, Sub(FontPath(fonts), u));
  }


  /**
   * `fonts/SUB/NAME` with one directory level holds no `/fonts/` unless the
   * directory is itself called `fonts`.
   */
  lemma BareNestedNoFontsDir(sub: string, name: string)
    requires '/' !in sub && sub != "fonts" && '/' !in name
    ensures Absent("fonts/" + sub + "/" + name, FontsDir)
  {
    var y := "fonts/" + sub + "/" + name;
    forall q: nat | q <= |y|
      ensures !OccursAt(y, FontsDir, q)
    {
      OccursAtChar(y, FontsDir, q, 0);
      OccursAtChar(y, FontsDir, q, 6);
      if q == 5 && |sub| == 5 {
        assert y[q..q + 7][1..6] == sub && FontsDir[1..6] == "fonts";
      } else if q == 5 {
        assert q + 6 < |y| ==> y[q + 6] != '/';
      } else if q < 5 {
        assert y[q] != '/';
      } else if q < 6 + |sub| {
        assert q < |y| ==> y[q] == sub[q - 6];
      } else {
        assert q + 6 < |y| ==> y[q + 6] == name[q - 1 - |sub|];
      }
    }
  }

  /**
   * The first font pattern matches nowhere inside a bare `url(fonts/SUB/NAME)`
   * whose directory is one level deep and is not itself called `fonts`.
   */
  lemma FontPathNotInBareNested(sub: string, name: string, w: string, i: nat)
    requires ')' !in sub && '/' !in sub && sub != "fonts" && ')' !in name && '/' !in name
    requires i < |UrlFonts + (sub + "/" + name) + ")"|
    ensures MatchFontPath((UrlFonts + (sub + "/" + name) + ")" + w)[i..]) == None
  {
    var x := UrlFonts + (sub + "/" + name) + ")";
    var t := (x + w)[i..];
    ClosedOnce(UrlFonts + (sub + "/" + name));
    if UrlRegion(t, UrlOpen).Some? {
      RegionInside(x, w, UrlOpen, i);
      BareNestedRegion(sub, name, i);
      FontsTailAbsent(x[i + |UrlOpen|..|x| - 1]);
    }
  }

  /** Every region read from inside a bare `url(fonts/SUB/NAME)` is free of `/fonts/`. */
  lemma BareNestedRegion(sub: string, name: string, i: nat)
    requires '/' !in sub && sub != "fonts" && '/' !in name
    requires i + |UrlOpen| < |UrlFonts + (sub + "/" + name) + ")"|
    ensures Absent((UrlFonts + (sub + "/" + name) + ")")[i + |UrlOpen|..|UrlFonts + (sub + "/" + name) + ")"| - 1], FontsDir)
  {
    var x := UrlFonts + (sub + "/" + name) + ")";
    var y := "fonts/" + sub + "/" + name;
    assert x[|UrlOpen|..|x| - 1] == y;
    assert x[i + |UrlOpen|..|x| - 1] == y[i..];
    BareNestedNoFontsDir(sub, name);
    AbsentFrom(y, FontsDir, i);
  }

  /**
   * `embed_fonts` on a style sheet that opens with `url(fonts/SUB/NAME)`: the
   * first pattern leaves it alone and the second rewrites it once, looked up
   * under `NAME`. (For `url(fonts/fonts/NAME)` the first pattern matches
   * instead, so that directory name is excluded here.)
   */
  lemma FontBareNestedInCss(sub: string, name: string, fonts: map<string, string>, u: string)
    requires ')' !in sub && '/' !in sub && sub != "fonts"
    requires name != [] && name != "." && ')' !in name && '/' !in name
    ensures EmbedFontRefs(UrlFonts + (sub + "/" + name) + ")" + u, fonts) ==
      (if name in fonts && fonts[name] != "" then "url(" + fonts[name] + ")" else UrlFonts + (sub + "/" + name) + ")")
      + EmbedFontRefs(u, fonts)
  {
    var x := UrlFonts + (sub + "/" + name) + ")";
    forall i | 0 <= i < |x|
      ensures Find(FontPath(fonts), (x + u)[i..]).None?
    {
      FontPathNotInBareNested(sub, name, u, i);
    }
    SubCopies(FontPath(fonts), x, u);
    FontBareNested(sub, name, fonts, Sub(FontPath(fonts), u));
  }
}
