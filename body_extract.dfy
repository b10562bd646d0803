/**
 * The text part of `extract_body_content`:
 * `re.search(r'<body[^>]*>(.*)</body>', text, re.DOTALL)`, then the group
 * stripped, or the empty string when nothing matches.
 *
 * At a start position the pattern needs `<body`; `[^>]*>` can only end at
 * the first `>` after it; the greedy `(.*)` then gives back characters
 * until `</body>` follows, so the group ends at the LAST `</body>` after
 * that `>`. The search takes the leftmost start position where this works.
 *
 * The search is written once for any pattern `opener[^>]*>(.*)closer` and
 * the lemmas about it are stated for any opener and closer that start
 * with their only `<`, which `<body` and `</body>` do.
 */
module BodyExtract {
  import opened Wrappers
  import opened Text

  const Opener: string := "<body"
  const Closer: string := "</body>"

  /** The captured group of one match: `text[start..end]`. */
  datatype Span = Span(start: nat, end: nat)

  /** A tag whose only `<` is its first character. */
  predicate TagLike(tag: string)
  {
    tag != [] && tag[0] == '<' && '<' !in tag[1..]
  }

  /**
   * `opener[^>]*>(.*)closer` tried at position `i`: the opener, up to the
   * first `>` after it, and the group up to the last closer after that `>`.
   */
  function MatchAt(text: string, opener: string, closer: string, i: nat): (r: Option<Span>)
  {
    if !OccursAt(text, opener, i) then None
    else match IndexOf(text[i + |opener|..], '>')
      case None => None
      case Some(k) =>
        var start := i + |opener| + k + 1;
        match LastOccurrence(text, closer, start, |text| + 1)
        case None => None
        case Some(end) => Some(Span(start, end))
  }

  /** What a match covers: the opener, text without `>` up to a `>`, the group, and the last closer. */
  lemma {:induction false} MatchAtShape(text: string, opener: string, closer: string, i: nat)
    ensures var r := MatchAt(text, opener, closer, i);
      r.Some? ==>
        OccursAt(text, opener, i) && i + |opener| < r.value.start <= r.value.end
        && OccursAt(text, closer, r.value.end)
        && text[r.value.start - 1] == '>' && '>' !in text[i + |opener|..r.value.start - 1]
        && forall j :: r.value.end < j <= |text| ==> !OccursAt(text, closer, j)
  {
    var r := MatchAt(text, opener, closer, i);
    if r.Some? {
      var k := IndexOf(text[i + |opener|..], '>').value;
      var start := i + |opener| + k + 1;
      assert text[start - 1] == text[i + |opener|..][k];
      assert text[i + |opener|..start - 1] == text[i + |opener|..][..k];
    }
  }

  /** `re.search`: the leftmost position from `i` on where the pattern matches. */
  function Search(text: string, opener: string, closer: string, i: nat): (r: Option<nat>)
    ensures r.Some? ==> i <= r.value <= |text| && MatchAt(text, opener, closer, r.value).Some?
    ensures r.Some? ==> forall j :: i <= j < r.value ==> MatchAt(text, opener, closer, j).None?
    ensures r.None? ==> forall j :: i <= j ==> MatchAt(text, opener, closer, j).None?
    decreases |text| - i
  {
    if i > |text| then None
    else if MatchAt(text, opener, closer, i).Some? then Some(i)
    else Search(text, opener, closer, i + 1)
  }

  /** The stripped group of the leftmost match, or `''` without one. */
  function ExtractWith(text: string, opener: string, closer: string): (r: string)
    ensures NoEdgeSpace(r)
  {
    match Search(text, opener, closer, 0)
    case None => ""
    case Some(i) =>
      var span := MatchAt(text, opener, closer, i).value;
      Strip(text[span.start..span.end])
  }

  /** `extract_body_content` after the file read. */
  function ExtractBody(text: string): (r: string)
    ensures NoEdgeSpace(r)
  {
    ExtractWith(text, Opener, Closer)
  }

  /** Without a closer, nothing is extracted. */
  lemma {:induction false} NoCloserNothing(text: string, opener: string, closer: string)
    requires forall j: nat :: !OccursAt(text, closer, j)
    ensures ExtractWith(text, opener, closer) == ""
  {
    if Search(text, opener, closer, 0).Some? {
      MatchAtShape(text, opener, closer, Search(text, opener, closer, 0).value);
    }
  }

  /** Without an opener, nothing is extracted. */
  lemma {:induction false} NoOpenerNothing(text: string, opener: string, closer: string)
    requires forall j: nat :: !OccursAt(text, opener, j)
    ensures ExtractWith(text, opener, closer) == ""
  {
    if Search(text, opener, closer, 0).Some? {
      MatchAtShape(text, opener, closer, Search(text, opener, closer, 0).value);
    }
  }

  /** Without `</body>`, nothing is extracted. */
  lemma NoCloserNoBody(text: string)
    requires forall j: nat :: !OccursAt(text, Closer, j)
    ensures ExtractBody(text) == ""
  {
    NoCloserNothing(text, Opener, Closer);
  }

  /** Without `<body`, nothing is extracted. */
  lemma NoOpenerNoBody(text: string)
    requires forall j: nat :: !OccursAt(text, Opener, j)
    ensures ExtractBody(text) == ""
  {
    NoOpenerNothing(text, Opener, Closer);
  }

  /**
   * A match from a later opener implies one from an earlier opener: its `>`
   * comes no sooner and its closer is also after the earlier `>`.
   */
  lemma {:induction false} LaterMatchImpliesEarlier(text: string, opener: string, closer: string, i: nat, j: nat)
    requires i <= j && OccursAt(text, opener, i)
    ensures MatchAt(text, opener, closer, j).Some? ==> MatchAt(text, opener, closer, i).Some?
  {
    if MatchAt(text, opener, closer, j).Some? {
      MatchAtShape(text, opener, closer, j);
      var sp := MatchAt(text, opener, closer, j).value;
      var rest := text[i + |opener|..];
      var d := sp.start - 1 - (i + |opener|);
      assert rest[d] == text[sp.start - 1];
      IndexOfAtMost(rest, '>', d);
      var start := i + |opener| + IndexOf(rest, '>').value + 1;
      assert start <= sp.end <= |text| && OccursAt(text, closer, sp.end);
    }
  }

  /** The search is decided by the leftmost opener: later openers can only fail too. */
  lemma {:induction false} SearchFromFirstOpener(text: string, opener: string, closer: string, i: nat)
    requires OccursAt(text, opener, i)
    requires forall j: nat :: j < i ==> !OccursAt(text, opener, j)
    ensures Search(text, opener, closer, 0) == if MatchAt(text, opener, closer, i).Some? then Some(i) else None
  {
    forall j: nat | i < j
      ensures MatchAt(text, opener, closer, j).Some? ==> MatchAt(text, opener, closer, i).Some?
    {
      LaterMatchImpliesEarlier(text, opener, closer, i, j);
    }
  }

  /** An occurrence starts with the first character of the pattern. */
  lemma OccursStartsWith(s: string, p: string, j: nat)
    requires p != []
    ensures OccursAt(s, p, j) ==> s[j] == p[0]
  {
    if OccursAt(s, p, j) {
      assert s[j..j + |p|][0] == s[j];
    }
  }

  /** An occurrence of a tag cannot cover a `<` anywhere but at its start. */
  lemma LtOnlyAtStart(s: string, tag: string, i: nat, j: nat)
    requires TagLike(tag)
    requires j < i < j + |tag| && i < |s| && s[i] == '<'
    ensures !OccursAt(s, tag, j)
  {
    if j + |tag| <= |s| {
      assert s[j..j + |tag|][i - j] == '<';
      assert tag[1..][i - j - 1] == tag[i - j];
    }
  }

  /** The opener of `pre + rest` is the one at `|pre|` when `pre` holds none. */
  lemma {:induction false} FirstOpenerAfter(pre: string, rest: string, opener: string)
    requires TagLike(opener)
    requires forall j: nat :: !OccursAt(pre, opener, j)
    requires opener <= rest
    ensures OccursAt(pre + rest, opener, |pre|)
    ensures forall j: nat :: j < |pre| ==> !OccursAt(pre + rest, opener, j)
  {
    var text := pre + rest;
    var p := |pre|;
    assert text[p..p + |opener|] == rest[..|opener|] == opener;
    assert text[p] == rest[0] == '<';
    forall j: nat | j < p
      ensures !OccursAt(text, opener, j)
    {
      if j + |opener| <= p {
        OccursInPrefix(pre, rest, opener, j);
      } else {
        LtOnlyAtStart(text, opener, p, j);
      }
    }
  }

  /** Inside an occurrence of a tag, no later position starts another one. */
  lemma NoTagInsideTag(text: string, tag: string, e: nat, j: nat)
    requires TagLike(tag) && OccursAt(text, tag, e)
    requires e < j < e + |tag|
    ensures !OccursAt(text, tag, j)
  {
    assert text[j] == text[e..e + |tag|][j - e] == tag[j - e];
    assert tag[j - e] == tag[1..][j - e - 1];
    OccursStartsWith(text, tag, j);
  }

  /** The closer of `x + closer + post` is the last one when `post` holds none. */
  lemma {:induction false} LastCloserBefore(x: string, closer: string, post: string)
    requires TagLike(closer)
    requires forall j: nat :: !OccursAt(post, closer, j)
    ensures OccursAt(x + closer + post, closer, |x|)
    ensures forall j: nat :: |x| < j ==> !OccursAt(x + closer + post, closer, j)
  {
    var text := x + closer + post;
    var e := |x|;
    assert text[e..e + |closer|] == closer;
    forall j: nat | e < j
      ensures !OccursAt(text, closer, j)
    {
      if j < e + |closer| {
        NoTagInsideTag(text, closer, e, j);
      } else {
        assert text == (x + closer) + post;
        OccursInSuffix(x + closer, post, closer, j);
      }
    }
  }

  /** Where the first `>` after the opener is, when the attributes hold none. */
  lemma {:induction false} OpenerEnd(pre: string, opener: string, attrs: string, rest: string)
    requires '>' !in attrs
    ensures var text := pre + opener + attrs + ">" + rest;
      IndexOf(text[|pre| + |opener|..], '>') == Some(|attrs|)
  {
    var text := pre + opener + attrs + ">" + rest;
    var after := attrs + ">" + rest;
    assert text[|pre| + |opener|..] == after;
    assert after[|attrs|] == '>' && after[..|attrs|] == attrs;
    IndexOfFirst(after, '>', |attrs|);
  }

  /** `MatchAt` from the positions of its three parts. */
  lemma {:induction false} MatchAtIs(text: string, opener: string, closer: string, i: nat, k: nat, end: nat)
    requires OccursAt(text, opener, i) && IndexOf(text[i + |opener|..], '>') == Some(k)
    requires LastOccurrence(text, closer, i + |opener| + k + 1, |text| + 1) == Some(end)
    ensures MatchAt(text, opener, closer, i) == Some(Span(i + |opener| + k + 1, end))
  {
  }

  /** Unfolding step: the extracted text from the position the search stops at. */
  lemma {:induction false} ExtractAt(text: string, opener: string, closer: string, i: nat, span: Span)
    requires Search(text, opener, closer, 0) == Some(i) && MatchAt(text, opener, closer, i) == Some(span)
    ensures ExtractWith(text, opener, closer) == Strip(text[span.start..span.end])
  {
  }

  /** The match at the first opener from where its parts are. */
  lemma {:induction false} MatchFromParts(text: string, opener: string, closer: string, p: nat, a: nat, start: nat, e: nat)
    requires OccursAt(text, opener, p)
    requires IndexOf(text[p + |opener|..], '>') == Some(a) && start == p + |opener| + a + 1
    requires start <= e && OccursAt(text, closer, e)
    requires forall j: nat :: e < j ==> !OccursAt(text, closer, j)
    ensures MatchAt(text, opener, closer, p) == Some(Span(start, e))
  {
    LastOccurrenceIs(text, closer, start, |text| + 1, e);
    MatchAtIs(text, opener, closer, p, a, e);
  }

  /**
   * Where the parts of a match are: the first opener at `p`, the first `>`
   * after it `a` characters on, so that the group `g` starts at `start`,
   * and the last closer at `e`.
   */
  ghost predicate PartsAt(text: string, opener: string, closer: string, p: nat, a: nat, start: nat, e: nat, g: string)
  {
    OccursAt(text, opener, p) && (forall j: nat :: j < p ==> !OccursAt(text, opener, j))
    && IndexOf(text[p + |opener|..], '>') == Some(a) && start == p + |opener| + a + 1
    && start <= e && OccursAt(text, closer, e)
    && (forall j: nat :: e < j ==> !OccursAt(text, closer, j))
    && text[start..e] == g
  }

  /** The extracted text from where the parts are. */
  lemma {:induction false} ExtractFromParts(text: string, opener: string, closer: string, p: nat, a: nat, start: nat, e: nat, g: string)
    requires PartsAt(text, opener, closer, p, a, start, e, g)
    ensures ExtractWith(text, opener, closer) == Strip(g)
  {
    MatchFromParts(text, opener, closer, p, a, start, e);
    SearchFromFirstOpener(text, opener, closer, p);
    ExtractAt(text, opener, closer, p, Span(start, e));
  }

  /** Where the opener and its first `>` are in a page `pre + opener + attrs + ">" + b + closer + post`. */
  lemma {:induction false} PageOpener(pre: string, opener: string, attrs: string, b: string, closer: string, post: string)
    requires TagLike(opener) && '>' !in attrs
    requires forall j: nat :: !OccursAt(pre, opener, j)
    ensures var text := pre + opener + attrs + ">" + b + closer + post;
      OccursAt(text, opener, |pre|) && (forall j: nat :: j < |pre| ==> !OccursAt(text, opener, j))
      && IndexOf(text[|pre| + |opener|..], '>') == Some(|attrs|)
  {
    var rest := b + closer + post;
    var tail := opener + attrs + ">" + rest;
    var text := pre + opener + attrs + ">" + b + closer + post;
    assert text == pre + tail;
    assert text == pre + opener + attrs + ">" + rest;
    assert tail[..|opener|] == opener;
    FirstOpenerAfter(pre, tail, opener);
    OpenerEnd(pre, opener, attrs, rest);
  }

  /** The group of `x + b + closer + post` sits between `|x|` and the closer at `e`. */
  lemma {:induction false} PageGroup(x: string, b: string, closer: string, post: string, e: nat)
    requires TagLike(closer) && e == |x| + |b|
    requires forall j: nat :: !OccursAt(post, closer, j)
    ensures var text := x + b + closer + post;
      text[|x|..e] == b && OccursAt(text, closer, e)
      && forall j: nat :: e < j ==> !OccursAt(text, closer, j)
  {
    var text := x + b + closer + post;
    assert text == (x + b) + closer + post;
    assert text[|x|..|x| + |b|] == (x + b)[|x|..] == b;
    LastCloserBefore(x + b, closer, post);
  }

  /** Where the parts of a page `pre + opener + attrs + ">" + b + closer + post` are. */
  lemma {:induction false} PagePartsAt(pre: string, opener: string, attrs: string, b: string, closer: string, post: string)
    requires TagLike(opener) && TagLike(closer)
    requires forall j: nat :: !OccursAt(pre, opener, j)
    requires '>' !in attrs
    requires forall j: nat :: !OccursAt(post, closer, j)
    ensures var start := |pre| + |opener| + |attrs| + 1;
      PartsAt(pre + opener + attrs + ">" + b + closer + post, opener, closer, |pre|, |attrs|, start, start + |b|, b)
  {
    var x := pre + opener + attrs + ">";
    var e := |x| + |b|;
    PageOpener(pre, opener, attrs, b, closer, post);
    PageGroup(x, b, closer, post, e);
  }

  /** A page `pre + opener + attrs + ">" + b + closer + post` gives back `b`, stripped. */
  lemma {:induction false} ExtractFromPage(pre: string, opener: string, attrs: string, b: string, closer: string, post: string)
    requires TagLike(opener) && TagLike(closer)
    requires forall j: nat :: !OccursAt(pre, opener, j)
    requires '>' !in attrs
    requires forall j: nat :: !OccursAt(post, closer, j)
    ensures ExtractWith(pre + opener + attrs + ">" + b + closer + post, opener, closer) == Strip(b)
  {
    var start := |pre| + |opener| + |attrs| + 1;
    PagePartsAt(pre, opener, attrs, b, closer, post);
    ExtractFromParts(pre + opener + attrs + ">" + b + closer + post, opener, closer, |pre|, |attrs|, start, start + |b|, b);
  }

  /**
   * Round trip with a page: for `pre<body attrs>b</body>post`, with no
   * `<body` in `pre`, no `>` in the opener's attributes and no `</body>` in
   * `post`, the extracted content is `b` stripped, whatever `b` holds.
   */
  lemma {:induction false} ExtractPage(pre: string, attrs: string, b: string, post: string)
    requires forall j: nat :: !OccursAt(pre, Opener, j)
    requires '>' !in attrs
    requires forall j: nat :: !OccursAt(post, Closer, j)
    ensures ExtractBody(pre + Opener + attrs + ">" + b + Closer + post) == Strip(b)
  {
    assert TagLike(Opener) by {
      assert Opener[1..] == "body";
    }
    assert TagLike(Closer) by {
      assert Closer[1..] == "/body>";
    }
    ExtractFromPage(pre, Opener, attrs, b, Closer, post);
  }
}
