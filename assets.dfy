/**
 * The asset tables: `encode_images` and the table-building half of
 * `embed_fonts`. Each walks the entries of a directory and records, for
 * every regular file whose extension is supported, the file name mapped to
 * an RFC 2397 data URI `data:<mime>;base64,<payload>`.
 *
 * Directory listing and file reads are outside the model: a directory is
 * the sequence of its entries as `iterdir` yields them (`None` when the
 * directory does not exist), and each entry carries the base64 text of its
 * bytes (section 4 of RFC 4648) as `payload`.
 */
module Assets {
  import opened Wrappers
  import opened Text

  /** One directory entry: its name, whether it is a regular file, and its encoded contents. */
  datatype Entry = Entry(name: string, isFile: bool, payload: string)

  /** The extensions `encode_images` accepts, with their MIME types. */
  const ImageTypes: map<string, string> :=
    map["gif" := "image/gif", "png" := "image/png", "jpg" := "image/jpeg", "jpeg" := "image/jpeg"]

  /** The extensions `embed_fonts` accepts, with their MIME types. */
  const FontTypes: map<string, string> :=
    map["ttf" := "font/ttf", "otf" := "font/otf", "woff" := "font/woff", "woff2" := "font/woff2"]

  /**
   * `path.suffix.lower().lstrip('.')` (and `suffix.lstrip('.').lower()`,
   * the same thing): the lower-cased extension without its dot.
   */
  function Extension(name: string): (r: string)
    ensures '.' !in r
    ensures forall i :: 0 <= i < |r| ==> !('A' <= r[i] <= 'Z')
  {
    var suffix := Suffix(name);
    if suffix == [] then []
    else
      var r := Lower(suffix[1..]);
      assert forall i :: 0 <= i < |r| ==> r[i] == suffix[1..][i] || 'a' <= r[i] <= 'z';
      r
  }

  /** `f'data:{mime};base64,{encoded}'`. */
  function DataUri(mime: string, payload: string): string
  {
    "data:" + mime + ";base64," + payload
  }

  /**
   * A data URI reads back: the MIME type runs from after `data:` to the
   * first `;`, and the payload follows `;base64,`.
   */
  lemma DataUriParts(mime: string, payload: string)
    requires ';' !in mime
    ensures var u := DataUri(mime, payload);
      IndexOf(u, ';') == Some(5 + |mime|) && u[..5] == "data:" && u[5..5 + |mime|] == mime
      && u[5 + |mime|..13 + |mime|] == ";base64," && u[13 + |mime|..] == payload
  {
    var u := DataUri(mime, payload);
    var head := "data:" + mime;
    assert u == head + (";base64," + payload);
    assert u[..5 + |mime|] == head;
    assert ';' !in head by {
      assert forall i :: 5 <= i < |head| ==> head[i] == mime[i - 5];
    }
    IndexOfFirst(u, ';', 5 + |mime|);
    assert head[..5] == "data:" && head[5..] == mime;
  }

  /** `{...}.get(ext)` on the image table: GIF, PNG and JPEG, under `image/<ext>` (`image/jpeg` for `jpg`). */
  function ImageMime(ext: string): (r: Option<string>)
    ensures r.Some? <==> ext in {"gif", "png", "jpg", "jpeg"}
    ensures r.Some? ==> r.value == "image/" + (if ext == "jpg" then "jpeg" else ext)
  {
    if ext in ImageTypes then Some(ImageTypes[ext]) else None
  }

  /** `{...}.get(ext)` on the font table: TrueType, OpenType and WOFF, under `font/<ext>`. */
  function FontMime(ext: string): (r: Option<string>)
    ensures r.Some? <==> ext in {"ttf", "otf", "woff", "woff2"}
    ensures r.Some? ==> r.value == "font/" + ext
  {
    if ext in FontTypes then Some(FontTypes[ext]) else None
  }

  /** What `encode_images` records for one entry, if anything. */
  function ImageUri(e: Entry): Option<string>
  {
    if !e.isFile then None
    else match ImageMime(Extension(e.name))
      case None => None
      case Some(mime) => Some(DataUri(mime, e.payload))
  }

  /** What the font loop of `embed_fonts` records for one entry, if anything. */
  function FontUri(e: Entry): Option<string>
  {
    if !e.isFile then None
    else match FontMime(Extension(e.name))
      case None => None
      case Some(mime) => Some(DataUri(mime, e.payload))
  }

  /** The dictionary after a loop over `entries` that stores `uriOf(e)` under `e.name` when present. */
  function Collect(entries: seq<Entry>, uriOf: Entry -> Option<string>): map<string, string>
    decreases |entries|
  {
    if entries == [] then map[]
    else
      var table := Collect(entries[..|entries| - 1], uriOf);
      var e := entries[|entries| - 1];
      match uriOf(e)
      case None => table
      case Some(uri) => table[e.name := uri]
  }

  /** `encode_images(images_dir)`. */
  method EncodeImages(dir: Option<seq<Entry>>) returns (data: map<string, string>)
    ensures data == if dir.None? then map[] else Collect(dir.value, ImageUri)
  {
    data := map[];
    if dir.Some? {
      var entries := dir.value;
      for i := 0 to |entries|
        invariant data == Collect(entries[..i], ImageUri)
      {
        assert entries[..i + 1][..i] == entries[..i];
        var img := entries[i];
        if !img.isFile {
          assert Collect(entries[..i + 1], ImageUri) == data;
          continue;
        }
        var mime := ImageMime(Extension(img.name));
        if mime.Some? {
          data := data[img.name := DataUri(mime.value, img.payload)];
        }
      }
      assert entries[..|entries|] == entries;
    }
  }

  /** The loop of `embed_fonts` that fills `font_data`. */
  method LoadFonts(dir: Option<seq<Entry>>) returns (fontData: map<string, string>)
    ensures fontData == if dir.None? then map[] else Collect(dir.value, FontUri)
  {
    fontData := map[];
    if dir.Some? {
      var entries := dir.value;
      for i := 0 to |entries|
        invariant fontData == Collect(entries[..i], FontUri)
      {
        assert entries[..i + 1][..i] == entries[..i];
        var fontFile := entries[i];
        if fontFile.isFile {
          var mime := FontMime(Extension(fontFile.name));
          if mime.Some? {
            fontData := fontData[fontFile.name := DataUri(mime.value, fontFile.payload)];
          }
        }
      }
      assert entries[..|entries|] == entries;
    }
  }

  /** The extension of `stem.ext` is `ext` lower-cased, whatever the stem holds, provided it is not empty. */
  lemma ExtensionOf(stem: string, ext: string)
    requires stem != [] && ext != [] && '.' !in ext
    ensures Extension(stem + "." + ext) == Lower(ext)
  {
    var name := stem + "." + ext;
    assert name[|stem|] == '.';
    assert name[|stem| + 1..] == ext;
    LastIndexOfIs(name, '.', |stem|);
    assert Suffix(name)[1..] == ext;
  }

  /** A name whose only dot is its first character (`.png`) has no extension. */
  lemma HiddenFileHasNoExtension(ext: string)
    requires '.' !in ext
    ensures Extension("." + ext) == ""
  {
    assert ("." + ext)[1..] == ext;
    LastIndexOfIs("." + ext, '.', 0);
  }

  /** Which names end up in a table: those of entries for which `uriOf` gives a URI. */
  lemma {:induction false} CollectKeys(entries: seq<Entry>, uriOf: Entry -> Option<string>, k: string)
    ensures k in Collect(entries, uriOf) <==>
      exists i :: 0 <= i < |entries| && entries[i].name == k && uriOf(entries[i]).Some?
    decreases |entries|
  {
    if entries != [] {
      var init := entries[..|entries| - 1];
      CollectKeys(init, uriOf, k);
      assert forall i :: 0 <= i < |init| ==> init[i] == entries[i];
    }
  }

  /** The value under a name is the URI of the last entry with that name that gives one. */
  lemma {:induction false} CollectLastWins(entries: seq<Entry>, uriOf: Entry -> Option<string>, i: nat)
    requires i < |entries| && uriOf(entries[i]).Some?
    requires forall j :: i < j < |entries| && entries[j].name == entries[i].name ==> uriOf(entries[j]).None?
    ensures entries[i].name in Collect(entries, uriOf)
    ensures Collect(entries, uriOf)[entries[i].name] == uriOf(entries[i]).value
    decreases |entries|
  {
    var init := entries[..|entries| - 1];
    if i < |entries| - 1 {
      assert forall j :: i < j < |init| ==> init[j] == entries[j];
      CollectLastWins(init, uriOf, i);
    }
  }

  /** Every value in a table is a URI that `uriOf` gave. */
  lemma {:induction false} CollectValues(entries: seq<Entry>, uriOf: Entry -> Option<string>, k: string)
    requires k in Collect(entries, uriOf)
    ensures exists i :: 0 <= i < |entries| && entries[i].name == k && uriOf(entries[i]) == Some(Collect(entries, uriOf)[k])
    decreases |entries|
  {
    var init := entries[..|entries| - 1];
    var e := entries[|entries| - 1];
    if e.name == k && uriOf(e).Some? {
      assert entries[|entries| - 1] == e;
    } else {
      CollectValues(init, uriOf, k);
      var i :| 0 <= i < |init| && init[i].name == k && uriOf(init[i]) == Some(Collect(init, uriOf)[k]);
      assert entries[i] == init[i];
    }
  }

  /**
   * The image table holds every regular file with a `.gif`, `.png`, `.jpg`
   * or `.jpeg` extension in any case, and nothing else, each mapped to
   * `data:image/<ext>;base64,<payload>` (`image/jpeg` for `.jpg`).
   */
  lemma ImageTableContents(entries: seq<Entry>, k: string)
    ensures k in Collect(entries, ImageUri) <==>
      exists i :: 0 <= i < |entries| && entries[i].name == k && entries[i].isFile
        && Extension(k) in {"gif", "png", "jpg", "jpeg"}
    ensures k in Collect(entries, ImageUri) ==>
      var ext := Extension(k);
      exists i :: 0 <= i < |entries| && entries[i].name == k
        && Collect(entries, ImageUri)[k] == DataUri("image/" + (if ext == "jpg" then "jpeg" else ext), entries[i].payload)
  {
    CollectKeys(entries, ImageUri, k);
    if k in Collect(entries, ImageUri) {
      CollectValues(entries, ImageUri, k);
    }
  }

  /**
   * The font table holds every regular file with a `.ttf`, `.otf`, `.woff`
   * or `.woff2` extension in any case, and nothing else, each mapped to
   * `data:font/<ext>;base64,<payload>`.
   */
  lemma FontTableContents(entries: seq<Entry>, k: string)
    ensures k in Collect(entries, FontUri) <==>
      exists i :: 0 <= i < |entries| && entries[i].name == k && entries[i].isFile
        && Extension(k) in {"ttf", "otf", "woff", "woff2"}
    ensures k in Collect(entries, FontUri) ==>
      exists i :: 0 <= i < |entries| && entries[i].name == k
        && Collect(entries, FontUri)[k] == DataUri("font/" + Extension(k), entries[i].payload)
  {
    CollectKeys(entries, FontUri, k);
    if k in Collect(entries, FontUri) {
      CollectValues(entries, FontUri, k);
    }
  }
}
