# epub_to_html, modelled in Dafny

`epub_to_html.py` turns a fixed-layout ePub, such as one exported by Apple
Pages, into a single HTML document with the pages stacked one after another.
Once the archive is unpacked, the program runs a pipeline of text steps:

1. It sorts the page files (`page-N.xhtml`) in natural order, so `page-9`
   comes before `page-10`.
2. It takes the markup between `<body…>` and `</body>` from each page and
   trims it.
3. It rewrites self-closed non-void elements (`<div/>`) as open/close pairs.
4. It replaces references to files in `images/` with `data:` URIs.
5. It turns links to other page files into anchors (`href="#page-N"`).
6. In the style sheet, it replaces references to files in `fonts/` with
   `data:` URIs.
7. It lays the surviving pages out in one document under the book's style
   sheet and a fixed set of overlay rules.

Each step has its own module:

| module | file | what it holds |
|---|---|---|
| `Wrappers` | `wrappers.dfy` | `Option` and `Result` |
| `Text` | `text.dfy` | Python's string helpers used here: `strip`, `lower`, `'\n'.join`, `Path.name`, `Path.suffix`, and ASCII `\d`, `\w` and whitespace |
| `NaturalSort` | `natural_sort.dfy` | `natural_sort_key`, Python's list comparison on the keys, and `sorted` as a stable insertion sort |
| `SelfClosing` | `self_closing.dfy` | `fix_self_closing` as one left-to-right substitution pass |
| `BodyExtract` | `body_extract.dfy` | the `re.search` of `extract_body_content` |
| `Assets` | `assets.dfy` | the MIME tables; `encode_images` and the table loop of `embed_fonts` as methods |
| `Substitute` | `substitute.dfy` | one generic `re.sub` scan, used by the two image patterns, the two font patterns and the page-link pattern |
| `Assembly` | `assembly.dfy` | `build_html_document`, the page loop of `convert_epub` and `convert_epub` itself, all as methods |

The regular expressions are not interpreted. Each is written out as the
function that decides, at a given position, whether the pattern matches and
what its group captures. Its contract states that decision as Python's
backtracking matcher makes it:

- **`fix_self_closing`.** Because of `\b`, only the whole word after `<` can
  be the element name. `[^>]*/>` means the first `>` after the name must be
  preceded by `/`.
- **The body pattern.** The leftmost `<body` decides where the match starts.
  The group runs to the last `</body>` in the text.
- **`re.sub`.** When the replacement function returns `group(0)`, the matched
  text is copied unchanged and scanning resumes after the match.

Two consequences of the code as written:

- **Repairing twice.** `fix_self_closing` is not idempotent: `<div x//>`
  becomes `<div x/></div>`, and a second pass changes that again.
  `SelfClosing.RepairTwiceDiffers` shows this, and
  `SelfClosing.RepairedTagUnchanged` states the condition under which a
  repaired pair is left alone.
- **The body opener.** `<body[^>]*>` has no word boundary, so a tag such as
  `<bodyx>` also opens the body. The match starts at the leftmost opener
  that has a `</body>` somewhere after it.

## Model

| member | source | states |
|---|---|---|
| Text.Strip | epub_to_html.py:194 | `strip()` leaves no whitespace at either end and removes only whitespace from the original text |
| Text.StripEmpty | epub_to_html.py:194 | stripping leaves nothing exactly when the text is all whitespace |
| Text.PathName | epub_to_html.py:119 | `Path(p).name` has no `/`, is not `.`, and when not empty is a whole `/`-separated component of `p`; `PathNameOfPlain`, `PathNameOfChild` and `PathNameTrailing` pin down its value |
| Text.PathNameOfChild | epub_to_html.py:119 | the name of `dir/name` is `name` for any directory part |
| Text.PathNameOfPlain | epub_to_html.py:119 | a name with no `/` that is not `.` is its own `Path.name` |
| Text.PathNameTrailing | epub_to_html.py:119 | a trailing `/` or `/.` does not change `Path.name` |
| Text.Suffix | epub_to_html.py:106 | `Path.suffix` is empty or a proper tail of the name that starts with `.`, has at least one more character, and holds no other `.`; `SuffixAt` states when it is empty |
| Text.SuffixAt | epub_to_html.py:106 | with `i` the last `.` of the name, the suffix is non-empty exactly when `0 < i < len(name) - 1`, and it is then `name[i:]` |
| NaturalSort.Split | epub_to_html.py:65 | `re.split(r'(\d+)', s)` starts with the leading non-digit run of `s` |
| NaturalSort.SplitConcat | epub_to_html.py:65 | the pieces of the split concatenate back to the file name |
| NaturalSort.SplitRuns | epub_to_html.py:65 | the pieces alternate: non-digit runs at even positions (possibly empty), non-empty digit runs at odd positions, odd count |
| NaturalSort.SplitAroundDigits | epub_to_html.py:65 | a name made of a non-digit prefix, a digit run and a rest not starting with a digit splits as `[prefix, digits]` followed by the split of the rest |
| NaturalSort.SortKey | epub_to_html.py:59-65 | the key has one element per piece of the split |
| NaturalSort.SortKeyShape | epub_to_html.py:59-65 | the key has odd length, holds the text runs at even positions and the integer values of the digit runs at odd positions |
| NaturalSort.SortKeysComparable | epub_to_html.py:65 | comparing two natural-sort keys never sets a string against an integer, so it cannot raise `TypeError` |
| NaturalSort.CompareStringsFacts | epub_to_html.py:75 | string comparison says equal exactly for equal strings, and less one way exactly when greater the other way |
| NaturalSort.CompareStringsTransitive | epub_to_html.py:75 | string `<` is transitive |
| NaturalSort.CompareKeys | epub_to_html.py:75 | definition (Python's list comparison on keys, `None` where it would raise `TypeError`); characterised by `CompareKeysFacts`, `CompareKeysTransitive` and `SortKeysComparable` |
| NaturalSort.CompareKeysFacts | epub_to_html.py:75 | key comparison says equal exactly for equal keys, and less one way exactly when greater the other way |
| NaturalSort.CompareKeysTransitive | epub_to_html.py:75 | key `<` is transitive |
| NaturalSort.SplitJoin | epub_to_html.py:65 | the split of a text that ends in a non-digit, followed by one that starts with a digit, is the first text's split followed by the second's runs from its first digit run on |
| NaturalSort.SplitAround | epub_to_html.py:65 | the split of `prefix + digits + rest`, with `prefix` not ending in a digit and `rest` not starting with one, is the split of `prefix`, then `digits`, then the split of `rest` |
| NaturalSort.KeyAround | epub_to_html.py:65 | the key of such a name holds the key pieces of `prefix`, then the number the digits spell |
| NaturalSort.SameThenSmallerNumber | epub_to_html.py:75 | keys that agree up to a position where both hold a number compare as those numbers |
| NaturalSort.OrdinalOrder | epub_to_html.py:59-75 | two names that differ only in one whole digit run, wherever it sits, sort by the value of that number (`vol2-page-9` before `vol2-page-10`) |
| NaturalSort.OrdinalKey | epub_to_html.py:65 | the key of `prefix + digits + rest` opens with the text `prefix` and the number the digits spell |
| NaturalSort.PageNineBeforePageTen | epub_to_html.py:62-65 | the key of `page-9.xhtml` is less than the key of `page-10.xhtml` |
| NaturalSort.PrecedesAsymmetric | epub_to_html.py:75 | no two elements each sort strictly before the other |
| NaturalSort.PrecedesThenNotAfter | epub_to_html.py:75 | if `a` sorts before `b` and `c` does not sort before `b`, then `a` sorts before `c` |
| NaturalSort.Insert | epub_to_html.py:75 | inserting one element adds exactly that element to the multiset |
| NaturalSort.InsertSorted | epub_to_html.py:75 | inserting into a sorted sequence keeps it sorted |
| NaturalSort.InsertStable | epub_to_html.py:75 | inserting into a sorted sequence puts the element after every element with the same key |
| NaturalSort.SortBy | epub_to_html.py:75 | `sorted` returns a permutation of its input |
| NaturalSort.SortBySorted | epub_to_html.py:75 | no element of the result comes after one that sorts strictly before it |
| NaturalSort.SortByStable | epub_to_html.py:75 | elements with equal keys keep their input order |
| NaturalSort.PageKeysTotal | epub_to_html.py:75 | the page-name keys can always be compared with each other |
| NaturalSort.FindPagesOrder | epub_to_html.py:74-75 | definition (`sorted` by the natural key of `Path.name`); characterised by `FindPagesOrderCorrect` |
| NaturalSort.FindPagesOrderCorrect | epub_to_html.py:74-75 | the page order is a permutation of the files found, ordered by the natural key of their names, and stable among equal keys |
| SelfClosing.FixSelfClosing | epub_to_html.py:153-168 | definition (one `pattern.sub` pass); characterised by `FixSelfClosedTag`, `FixCopies`, `UnlistedUnchanged`, `FixWithoutSlashGt` and `RepairedTagUnchanged` |
| SelfClosing.NonVoidAreWords | epub_to_html.py:161-166 | every allow-listed name is a non-empty run of word characters |
| SelfClosing.BreakNotListed | epub_to_html.py:161-166 | `br` is a word that is not allow-listed |
| SelfClosing.ImageNotListed | epub_to_html.py:161-166 | `img` is a word that is not allow-listed |
| SelfClosing.PreNotListed | epub_to_html.py:161-166 | `pre` is a word that is not allow-listed |
| SelfClosing.InListIff | epub_to_html.py:167 | the list lookup used by the matcher is membership in the list |
| SelfClosing.MatchName | epub_to_html.py:167 | a match with one fixed name never covers more than the text |
| SelfClosing.MatchNameCovers | epub_to_html.py:167 | when one name matches, the text starts with `<name attrs/>` and `attrs` holds no `>` |
| SelfClosing.MatchFrom | epub_to_html.py:167 | the alternation tried in list order yields a listed name that matches, or fails only when no listed name matches |
| SelfClosing.MatchTag | epub_to_html.py:167 | a match names an allow-listed element, and its attribute text is what that name's pattern captures |
| SelfClosing.MatchTagIsAlternation | epub_to_html.py:167 | the word-run matcher agrees with the list-order alternation on every text |
| SelfClosing.OnlyTheHeadName | epub_to_html.py:167 | because of `\b`, only the whole word after `<` can match: no shorter or longer name can |
| SelfClosing.MatchSelfClosed | epub_to_html.py:167 | `<name attrs/>` with a listed name and `attrs` free of `>` and not starting with a word character matches with exactly that name and `attrs` |
| SelfClosing.FixSelfClosedTag | epub_to_html.py:167-168 | such a tag becomes exactly `<name attrs></name>`, with `attrs` copied verbatim, and the pass continues after it |
| SelfClosing.FixCopies | epub_to_html.py:168 | text where no match starts is copied verbatim |
| SelfClosing.UnlistedUnchanged | epub_to_html.py:167-168 | a self-closed tag whose name is not in the list is left byte for byte |
| SelfClosing.VoidTagUnchanged | epub_to_html.py:161-168 | a self-closed element not on the allow-list is left byte for byte |
| SelfClosing.BreakUnchanged | epub_to_html.py:161-168 | `<br …/>` is left byte for byte |
| SelfClosing.ImageUnchanged | epub_to_html.py:161-168 | `<img …/>` is left byte for byte |
| SelfClosing.PreUnchanged | epub_to_html.py:161-168 | `<pre …/>` is left byte for byte; it is not taken for `<p` |
| SelfClosing.MatchCoversSlashGt | epub_to_html.py:167 | every match contains `/>` |
| SelfClosing.FixWithoutSlashGt | epub_to_html.py:167-168 | text containing no `/>` is unchanged |
| SelfClosing.PairedNoSlashGt | epub_to_html.py:168 | a repaired pair contains no `/>` when its attribute text has none and does not end in `/` |
| SelfClosing.RepairedTagUnchanged | epub_to_html.py:167-168 | repairing such a repaired pair again changes nothing |
| SelfClosing.RepairSlashTag | epub_to_html.py:167-168 | `<name attrs//>` becomes `<name attrs/></name>` |
| SelfClosing.RepairSlashPair | epub_to_html.py:167-168 | a second pass turns `<name attrs/></name>` into `<name attrs></name></name>` |
| SelfClosing.RepairTwiceDiffers | epub_to_html.py:167-168 | when the attribute text ends in `/`, a second pass changes the repaired text again, so the repair is not idempotent in general |
| BodyExtract.MatchAt | epub_to_html.py:191 | definition (the body pattern tried at one index); characterised by `MatchAtShape` and `LaterMatchImpliesEarlier` |
| BodyExtract.MatchAtShape | epub_to_html.py:191 | a match at `i` needs `<body` at `i`; its group starts right after the first `>` that follows and ends at a `</body>`, with no `</body>` after that end |
| BodyExtract.Search | epub_to_html.py:191 | `re.search` returns the leftmost start at which the pattern matches, or nothing when it matches nowhere |
| BodyExtract.ExtractWith | epub_to_html.py:191-195 | the extracted body has no leading or trailing whitespace |
| BodyExtract.ExtractBody | epub_to_html.py:188-195 | the extracted body has no leading or trailing whitespace |
| BodyExtract.NoOpenerNothing | epub_to_html.py:191-193 | with no opener anywhere, the result is `''` |
| BodyExtract.NoCloserNothing | epub_to_html.py:191-193 | with no closer anywhere, the result is `''` |
| BodyExtract.NoOpenerNoBody | epub_to_html.py:191-193 | a page without `<body` yields `''` |
| BodyExtract.NoCloserNoBody | epub_to_html.py:191-193 | a page without `</body>` yields `''` |
| BodyExtract.LaterMatchImpliesEarlier | epub_to_html.py:191 | if the pattern matches at some opener, it also matches at every earlier opener |
| BodyExtract.SearchFromFirstOpener | epub_to_html.py:191 | the search succeeds exactly when the pattern matches at the leftmost opener, and then starts there |
| BodyExtract.LastCloserBefore | epub_to_html.py:191 | in `x + "</body>" + post`, where `post` holds no closer, the closer after `x` is the last one |
| BodyExtract.ExtractFromPage | epub_to_html.py:191-194 | for any tag-shaped opener and closer, a page `pre + opener + attrs + ">" + b + closer + post` yields `strip(b)`, when `pre` holds no opener, `attrs` no `>` and `post` no closer |
| BodyExtract.ExtractPage | epub_to_html.py:188-195 | a page `pre<body attrs>b</body>post`, where `pre` holds no `<body`, `attrs` no `>` and `post` no `</body>`, yields `strip(b)` |
| Assets.Extension | epub_to_html.py:140 | the extension has no `.` and no upper-case letter |
| Assets.ExtensionOf | epub_to_html.py:140 | the extension of `stem.ext` is `ext` lower-cased |
| Assets.HiddenFileHasNoExtension | epub_to_html.py:106 | a name such as `.ttf` has no extension |
| Assets.ImageMime | epub_to_html.py:141-146 | the image table knows exactly `gif`, `png`, `jpg` and `jpeg`, each as `image/<ext>`, except `jpg` as `image/jpeg` |
| Assets.FontMime | epub_to_html.py:107-112 | the font table knows exactly `ttf`, `otf`, `woff` and `woff2`, each as `font/<ext>` |
| Assets.DataUriParts | epub_to_html.py:115 | a data URI reads back as `data:`, the MIME type, `;base64,` and the payload |
| Assets.Collect | epub_to_html.py:102-115 | definition (the table a loop over directory entries builds, later entries overwriting earlier ones); characterised by `CollectKeys`, `CollectLastWins` and `CollectValues` |
| Assets.CollectKeys | epub_to_html.py:102-115 | a name is in the table exactly when some entry with that name yields a URI |
| Assets.CollectLastWins | epub_to_html.py:115 | when names repeat, the last supported entry's URI wins |
| Assets.CollectValues | epub_to_html.py:115 | every value in the table is the URI of some entry with that name |
| Assets.EncodeImages | epub_to_html.py:130-150 | the loop builds the image table, and yields an empty table when the directory is missing |
| Assets.LoadFonts | epub_to_html.py:102-115 | the loop builds the font table, and yields an empty table when the directory is missing |
| Assets.ImageTableContents | epub_to_html.py:135-150 | the image table holds exactly the regular files with an image extension in any case, each mapped to `data:image/<mime>;base64,<payload>` |
| Assets.FontTableContents | epub_to_html.py:102-115 | the font table holds exactly the regular files with a font extension in any case, each mapped to `data:font/<ext>;base64,<payload>` |
| Substitute.Lookup | epub_to_html.py:120-121 | definition (`dict.get`, then `if uri:`); its effect is stated by `ImageSrcReference`, `ImageUrlReference`, `FontPathReference` and `FontBareReference` |
| Substitute.MatchSrc | epub_to_html.py:183 | definition of `src="images/([^"/]+)"` at one position; characterised by `MatchSrcOf` and `ImageSrcSkipsSubdirectory` |
| Substitute.MatchUrlTail | epub_to_html.py:184 | definition of `url\(images/([^\)]+)\)`, and of `url\(fonts\/([^\)]+)\)` on line 125, at one position; characterised by `UrlRegionOf` and `MatchUrlTailOf` |
| Substitute.MatchFontPath | epub_to_html.py:124 | definition of `url\([^\)]+\/fonts\/([^\)]+)\)` at one position; characterised by `FontsTailOf`, `MatchFontPathOf` and `FontPathNotInBare` |
| Substitute.MatchPageLink | epub_to_html.py:268 | definition of `href="page-(\d+)\.xhtml"` at one position; characterised by `PageLinkReference` and `PageLinkNeedsExtension` |
| Substitute.Find | epub_to_html.py:183 | every match is non-empty and lies within the text |
| Substitute.Scan | epub_to_html.py:183-184 | definition (`re.sub` as a left-to-right scan); characterised by `ScanCopies`, `ScanKeeps` and `ScanKeepsTo` |
| Substitute.ScanKeepsTo | epub_to_html.py:183-184 | a pass copies a prefix in which every match ends inside the prefix and is replaced by itself, then carries on with the rest |
| Substitute.Sub | epub_to_html.py:183-184 | definition (`re.sub` with one rule's pattern and replacement function); characterised by `SubCopies`, `SubKeeps`, `SubSkips` and `SubKeepsIn` |
| Substitute.ScanCopies | epub_to_html.py:183 | text where no match starts is copied verbatim by any substitution pass |
| Substitute.SubCopies | epub_to_html.py:183-184 | text where no match starts is copied verbatim |
| Substitute.SubKeeps | epub_to_html.py:183-184 | when every match's rewrite returns the match itself, the pass changes nothing |
| Substitute.FindNeedsOpener | epub_to_html.py:183-184 | a rule's pattern can only match where its fixed opening text (`src="images/`, `url(`, `href="page-`) starts |
| Substitute.SubSkips | epub_to_html.py:183-184 | a prefix that holds no opening text of the rule, and does not end in part of one, is copied, and the pass carries on after it |
| Substitute.SubKeepsIn | epub_to_html.py:183-184 | a prefix in which every match ends inside the prefix and is replaced by itself is copied, and the pass carries on after it |
| Substitute.EmptyTableKeeps | epub_to_html.py:175-176 | with an empty table, every match is left as it is |
| Substitute.NoImagesNoChange | epub_to_html.py:171-185 | with no images, the HTML is unchanged |
| Substitute.NoFontsNoChange | epub_to_html.py:117-126 | with no fonts, the style sheet is unchanged |
| Substitute.ReplaceImagesInHtml | epub_to_html.py:171-185 | definition (the `src` pass, then the `url` pass); characterised by `NoImagesNoChange`, `ImagesInHtml` and `ImageUrlInHtml`, which follow each form of reference through both passes |
| Substitute.EmbedFontRefs | epub_to_html.py:117-126 | definition (the path pass, then the bare pass); characterised by `NoFontsNoChange`, `FontPathInCss`, `FontPathNestedInCss`, `FontBareInCss` and `FontBareNestedInCss`, which follow plain and nested font paths through both passes, each looked up under its basename |
| Substitute.RewritePageLinks | epub_to_html.py:268 | definition (the link `re.sub`); characterised by `PageLinkReference` and `PageLinkNeedsExtension` |
| Substitute.MatchSrcOf | epub_to_html.py:183 | `src="images/<name>"` matches with `name` as the group when `name` has no `"` or `/` |
| Substitute.ImageSrcReference | epub_to_html.py:173-183 | `src="images/<name>"` becomes `src="<uri>"` when `name` is in the table, and stays as it is otherwise |
| Substitute.ImageSrcSkipsSubdirectory | epub_to_html.py:183 | `src="images/dir/…"` does not match |
| Substitute.UrlRegionOf | epub_to_html.py:184 | the region after the prefix runs to the first `)` |
| Substitute.MatchUrlTailOf | epub_to_html.py:184 | `url(images/<name>)` matches with `name` as the group |
| Substitute.ImageUrlReference | epub_to_html.py:178-184 | `url(images/<name>)` becomes `url(<uri>)` when `name` is in the table, and stays as it is otherwise |
| Substitute.FontsTailOf | epub_to_html.py:124 | the group of the first font pattern is the path after the last `/fonts/` |
| Substitute.MatchFontPathOf | epub_to_html.py:124 | `url(<dir>/fonts/<name>)` matches the first font pattern, capturing `name` |
| Substitute.FontPathReference | epub_to_html.py:117-124 | `url(<dir>/fonts/<name>)` becomes `url(<uri>)` when `name` is in the font table, and stays as it is otherwise |
| Substitute.FontBareReference | epub_to_html.py:117-126 | `url(fonts/<name>)` becomes `url(<uri>)` when `name` is in the font table, and stays as it is otherwise |
| Substitute.FontBareNested | epub_to_html.py:119-126 | `url(fonts/<sub>/<name>)` is looked up by its basename `name` |
| Substitute.FontsTailOfGroup | epub_to_html.py:124 | the greedy `[^\)]+` puts the split at the last `/fonts/`: in `<dir>/fonts/<path>`, with no further `/fonts/` in `fonts/<path>`, the group is all of `path` |
| Substitute.MatchFontPathOfGroup | epub_to_html.py:124 | `url(<dir>/fonts/<path>)` is one match of the first font pattern whose group is `path` |
| Substitute.FontPathNested | epub_to_html.py:117-124 | the first pass replaces `url(<dir>/fonts/<sub>/<name>)` by `url(<uri>)` when the basename `name` has a non-empty entry, and keeps it otherwise |
| Substitute.PageLinkReference | epub_to_html.py:268 | `href="page-N.xhtml"` becomes exactly `href="#page-N"`, with the digits copied verbatim |
| Substitute.PageLinkNeedsExtension | epub_to_html.py:268 | an `href="page-N` not followed by `.xhtml"` is not rewritten |
| Substitute.ImagesInHtml | epub_to_html.py:171-185 | through both passes of `replace_images_in_html`, `src="images/<name>"` becomes `src="<uri>"` on a hit and stays as it is on a miss, and the rest of the page is processed on its own, as long as the URI holds no `url(images/` |
| Substitute.ImageUrlInHtml | epub_to_html.py:171-185 | through both passes of `replace_images_in_html`, `url(images/<name>)` becomes `url(<uri>)` on a hit and stays as it is on a miss, and the rest of the page is processed on its own; the `src` pass cannot match inside it |
| Substitute.FontPathInCss | epub_to_html.py:117-126 | through both passes of `embed_fonts`, `url(<dir>/fonts/<name>)` becomes `url(<uri>)` on a hit and stays as it is on a miss, and the rest of the sheet is processed on its own, as long as the new `url(<uri>)` holds no `url(fonts/` |
| Substitute.FontBareInCss | epub_to_html.py:117-126 | through both passes of `embed_fonts`, `url(fonts/<name>)` becomes `url(<uri>)` on a hit and stays as it is on a miss, and the rest of the sheet is processed on its own |
| Substitute.FontPathNestedInCss | epub_to_html.py:117-126 | through both passes of `embed_fonts`, `url(<dir>/fonts/<sub>/<name>)` becomes `url(<uri>)` exactly when the basename `name` has a non-empty entry, stays as it is otherwise, and the rest of the sheet is processed on its own, as long as the new `url(<uri>)` holds no `url(fonts/` |
| Substitute.FontBareNestedInCss | epub_to_html.py:117-126 | through both passes of `embed_fonts`, `url(fonts/<sub>/<name>)` becomes `url(<uri>)` exactly when the basename `name` has a non-empty entry, and stays as it is otherwise; the first pattern does not match inside it |
| Substitute.FontPathNotInBareNested | epub_to_html.py:124 | the first font pattern matches nowhere inside `url(fonts/<sub>/<name>)` |
| Substitute.BareNestedNoFontsDir | epub_to_html.py:124 | `fonts/<sub>/<name>` with a one-level `sub` other than `fonts` holds no `/fonts/` |
| Substitute.FontRefThenBare | epub_to_html.py:126 | what the first pass leaves of a reference ending in `/<name>)`, the data URI or the reference itself, passes the bare pass unchanged |
| Substitute.FontPathNotInBare | epub_to_html.py:124 | the first font pattern matches nowhere inside `url(fonts/<name>)`, so that text reaches the second pass untouched |
| Substitute.BareKeepsIn | epub_to_html.py:117-126 | when `name` is a miss, every match of the second font pattern inside `url(<dir>/fonts/<name>)` ends inside it and is replaced by itself |
| Substitute.EmbedFonts | epub_to_html.py:95-127 | `embed_fonts` is both font substitutions, applied with the table the loop builds; `FontPathInCss`, `FontPathNestedInCss`, `FontBareInCss` and `FontBareNestedInCss` state what the two passes do to one reference |
| Assembly.Decimal | epub_to_html.py:221-222 | a page number is printed as a non-empty string of digits with no leading zero |
| Assembly.DecimalValue | epub_to_html.py:221-222 | the printed digits read back as the page number |
| Assembly.DecimalInjective | epub_to_html.py:221-222 | different page numbers print differently |
| Assembly.PageBlock | epub_to_html.py:220-224 | each page contributes exactly four entries of the `parts` list |
| Assembly.PageBlockAt | epub_to_html.py:220-224 | the entries of `parts` for the `k`-th page are its label, its container, its content and `</div>`, numbered from 1 |
| Assembly.DocumentParts | epub_to_html.py:200-228 | definition (the `parts` list); characterised by `PreambleShape`, `PageBlockAt`, `DocumentLayout` and `BuildHtmlDocument` |
| Assembly.BuildHtmlDocument | epub_to_html.py:198-228 | the appends and the page loop build the `parts` list (fixed head, style sheet, overlay, four entries per page, closing entries) and return its entries joined by newlines |
| Assembly.PreambleShape | epub_to_html.py:200-219 | the entries of `parts` before the first page are nineteen: the style sheet is entry 6, followed by the overlay rules |
| Assembly.DocumentLayout | epub_to_html.py:200-228 | the `parts` list has `22 + 4n` entries, joined by newlines: the style sheet is entry 6, the overlay follows it, page `k` is entries `15 + 4k` to `18 + 4k`, and three closing entries end it |
| Assembly.LabelsDistinct | epub_to_html.py:221 | the `Page k` labels of different pages differ, so each page number labels exactly one page |
| Assembly.ContainersDistinct | epub_to_html.py:222 | the `page-k` containers of different pages differ |
| Assembly.CssBeforeOverlay | epub_to_html.py:206-215 | the book's style sheet comes verbatim before the overlay rules |
| Assembly.KeptConcat | epub_to_html.py:261-269 | the loop distributes over concatenation of the file list |
| Assembly.KeptEmptyIff | epub_to_html.py:261-270 | the loop keeps nothing exactly when every body is empty |
| Assembly.Transform | epub_to_html.py:265-268 | definition (repair, then images, then links); characterised by `PageKept` and `ProcessPages` |
| Assembly.ProcessedPages | epub_to_html.py:260-269 | definition (the page loop on values); characterised by `ProcessPages`, `ProcessedConcat`, `EmptyPageDropped`, `PageKept` and `KeptEmptyIff` |
| Assembly.ProcessPages | epub_to_html.py:260-269 | the page loop drops files with an empty body and appends repair, then images, then links for the rest, in order |
| Assembly.ProcessedConcat | epub_to_html.py:260-269 | processing a concatenation of files gives the concatenation of the results |
| Assembly.EmptyPageDropped | epub_to_html.py:263-264 | a page whose body is empty contributes nothing, wherever it sits |
| Assembly.PageKept | epub_to_html.py:265-269 | a page with a body contributes exactly its transformed body, in place |
| Assembly.NoPagesIff | epub_to_html.py:270-271 | no page survives exactly when every page's body is empty |
| Assembly.ConvertEpub | epub_to_html.py:245-273 | fails when there is no page file; otherwise fails when no page survives; otherwise returns the document built from the sorted, processed pages and the font-embedded style sheet |

## Left out

- Unpacking the archive into a temporary directory, and writing the output
  file: archive and file-system I/O. `ConvertEpub` returns the document it
  would write.
- The location of the package root with `rglob`, and the directory walk in
  `find_pages`: directory listing. The page files are given to `ConvertEpub`
  as a list of paths, and the model sorts that list.
- Assembly.ConvertEpub: the "no page file" failure is raised when the given
  list of page files is empty. This stands for the search for the package
  root, which fails exactly when the archive holds no `page-*.xhtml` file.
- `read_css`: directory listing and file reads. The concatenated style sheet
  is a parameter of `ConvertEpub`.
- File reads in `extract_body_content`, `encode_images` and `embed_fonts`:
  - a page's text comes from a `read` function parameter;
  - a directory is the sequence of its entries in `iterdir` order, or
    `None` when it does not exist.
- `iterdir` order depends on the platform, and the model makes no choice
  for it. When two files share a name, `Assets.CollectLastWins` states the
  outcome for the order given.
- Base64 encoding (section 4 of RFC 4648). Each entry carries its encoded
  payload as given text.
- `PAGE_WIDTH` and `PAGE_HEIGHT` are floats that are only printed. The model
  uses them as the fixed strings `595.28` and `841.89`.
- `argparse`, `main`, exit codes and the default output path: command-line
  handling.
- Unicode classes. `\d`, `\w`, `str.isdigit`, `str.strip` and `str.lower`
  are modelled on ASCII. Python's versions also accept other Unicode
  digits, letters and spaces.
- NaturalSort.SortKey: covers ASCII digits only. With a non-ASCII Unicode
  digit, `isdigit` and `int()` can disagree in Python, and the model does
  not cover that case.
- SelfClosing.RepairedTagUnchanged: idempotence is proved only for repaired
  pairs whose attribute text holds no `/>` and does not end in `/`.
  `SelfClosing.RepairTwiceDiffers` shows it fails otherwise.
- Renumbered pages: pages are numbered by their position among the pages
  that survive. When a page is dropped, a link `#page-N` made from a file
  name may then point at a different page. The model states the numbering
  and the link rewrite, and does not relate the two.
- Text.PathName: models POSIX paths only. On Windows, `Path(p).name` also
  splits at `\`, and the model does not cover that.
- Substitute.ImagesInHtml, Substitute.FontPathInCss and Substitute.FontPathNestedInCss: all assume the
  inserted data URI does not itself spell `url(images/` or `url(fonts/`,
  which the second pass would otherwise rewrite. The tables' MIME types and
  a base64 payload never contain `(`, so this holds for every URI the
  tables produce; the model does not derive it from the base64 alphabet.
- Substitute.FontBareNestedInCss: covers one directory level below `fonts/`,
  other than a directory called `fonts` itself. In `url(fonts/fonts/NAME)`
  the first pattern matches too, and the model does not follow that case
  through both passes; `FontBareNested` states the bare pass for any depth.
