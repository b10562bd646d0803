/**
 * `fix_self_closing`: one left-to-right pass of
 * `re.sub(r'<(div|span|...|u)(\b[^>]*)/>', r'<\1\2></\1>', html)`.
 *
 * At a position the alternation tries the allow-listed names in list order.
 * A name matches when `<name` is followed by a non-word character (the `\b`:
 * every allow-listed name ends in a word character) and the first `>` after
 * the name is immediately preceded by `/`, with that `/` after the name: the
 * greedy `[^>]*` cannot pass a `>`, so it can only stop right before the
 * `/>` that ends at the first `>`.
 */
module SelfClosing {
  import opened Wrappers
  import opened Text

  /** The non-void elements the repair applies to, in the order the alternation tries them. */
  const NonVoid: seq<string> := [
    "div", "span", "p", "bdi", "a", "h1", "h2", "h3", "h4", "h5", "h6",
    "section", "article", "header", "footer", "li", "ul", "ol", "table",
    "tbody", "td", "tr", "th", "strong", "em", "b", "i", "small", "big",
    "sup", "sub", "u"
  ]

  predicate WordChars(w: string)
  {
    forall i :: 0 <= i < |w| ==> IsWordChar(w[i])
  }

  /** A non-empty run of word characters: what every allow-listed name is. */
  predicate IsWord(w: string)
  {
    w != [] && WordChars(w)
  }

  // ListedWordsA to ListedWordsD only split the next proof into four, so that the solver handles eight names at a time.

  /** The allow-listed names are words, eight at a time. */
  lemma ListedWordsA(i: nat)
    requires i < 8
    ensures IsWord(NonVoid[i])
  {
  }

  lemma ListedWordsB(i: nat)
    requires 8 <= i < 16
    ensures IsWord(NonVoid[i])
  {
  }

  lemma ListedWordsC(i: nat)
    requires 16 <= i < 24
    ensures IsWord(NonVoid[i])
  {
  }

  lemma ListedWordsD(i: nat)
    requires 24 <= i < |NonVoid|
    ensures IsWord(NonVoid[i])
  {
  }

  lemma NonVoidAreWords()
    ensures AllWords(NonVoid)
  {
    forall i | 0 <= i < |NonVoid|
      ensures IsWord(NonVoid[i])
    {
      if i < 8 {
        ListedWordsA(i);
      } else if i < 16 {
        ListedWordsB(i);
      } else if i < 24 {
        ListedWordsC(i);
      } else {
        ListedWordsD(i);
      }
    }
  }

  /** `w in names`, one element at a time. */
  predicate InList(w: string, names: seq<string>)
  {
    names != [] && (names[0] == w || InList(w, names[1..]))
  }

  lemma {:induction false} InListIff(w: string, names: seq<string>)
    ensures InList(w, names) <==> w in names
  {
    if names != [] {
      InListIff(w, names[1..]);
      assert w in names <==> w == names[0] || w in names[1..];
    }
  }

  /** One match of the pattern: the element name and the attribute text after it. */
  datatype Tag = Tag(name: string, attrs: string)

  /** `<name attrs/>`: the text a match covers. */
  function SelfClosed(t: Tag): string
  {
    "<" + t.name + t.attrs + "/>"
  }

  lemma SelfClosedThen(t: Tag, u: string)
    ensures SelfClosed(t) + u == "<" + t.name + (t.attrs + "/>" + u)
  {
  }

  /** `<name attrs></name>`: what a match is replaced by. */
  function Paired(t: Tag): string
  {
    "<" + t.name + t.attrs + "></" + t.name + ">"
  }

  /**
   * The pattern with one fixed name, tried at the start of `s`: the attribute
   * text when it matches.
   */
  function MatchName(s: string, name: string): (r: Option<string>)
    ensures r.Some? ==> |SelfClosed(Tag(name, r.value))| <= |s|
  {
    var n := |name| + 1;
    if n < |s| && s[0] == '<' && s[1..n] == name && !IsWordChar(s[n]) then
      match IndexOf(s[n..], '>')
      case None => None
      case Some(k) =>
        if k >= 1 && s[n + k - 1] == '/' then
          Some(s[n..n + k - 1])
        else None
    else None
  }

  /** What a match of the pattern covers: `<name attrs/>`, with no `>` in the attribute text. */
  lemma MatchNameCovers(s: string, name: string)
    ensures MatchName(s, name).Some? ==>
      SelfClosed(Tag(name, MatchName(s, name).value)) <= s && '>' !in MatchName(s, name).value
  {
    var n := |name| + 1;
    if MatchName(s, name).Some? {
      var k := IndexOf(s[n..], '>').value;
      assert s[..n + k + 1] == SelfClosed(Tag(name, s[n..n + k - 1]));
      assert s[n..n + k - 1] == s[n..][..k - 1];
    }
  }

  /** The alternation over `names`: the first name, in order, for which the pattern matches. */
  function MatchFrom(s: string, names: seq<string>): (r: Option<Tag>)
    ensures r.Some? ==> r.value.name in names && MatchName(s, r.value.name) == Some(r.value.attrs)
    ensures r.None? ==> forall i :: 0 <= i < |names| ==> MatchName(s, names[i]).None?
  {
    if names == [] then None
    else match MatchName(s, names[0])
      case Some(a) => Some(Tag(names[0], a))
      case None => MatchFrom(s, names[1..])
  }

  /** The length of the run of word characters at the start of `s`. */
  function WordRun(s: string): (n: nat)
    ensures n <= |s| && WordChars(s[..n]) && (n < |s| ==> !IsWordChar(s[n]))
  {
    if s != [] && IsWordChar(s[0]) then
      var n := 1 + WordRun(s[1..]);
      assert s[..n] == [s[0]] + s[1..][..n - 1];
      n
    else 0
  }

  /** Every name in `names` is a word. */
  predicate AllWords(names: seq<string>)
  {
    forall i :: 0 <= i < |names| ==> IsWord(names[i])
  }

  /**
   * The whole pattern with the alternation over `names`, tried at the start
   * of `s`. Only one name can pass the `\b` test at a position: the run of
   * word characters after `<`, so the alternation comes down to that run
   * being in the list (`MatchTagIsAlternation`).
   */
  function MatchTagIn(s: string, names: seq<string>): (r: Option<Tag>)
    ensures r.Some? ==> InList(r.value.name, names) && MatchName(s, r.value.name) == Some(r.value.attrs)
  {
    if s == [] || s[0] != '<' then None
    else
      var name := s[1..1 + WordRun(s[1..])];
      if !InList(name, names) then None
      else match MatchName(s, name)
        case Some(attrs) => Some(Tag(name, attrs))
        case None => None
  }

  /** The pattern of `fix_self_closing`, tried at the start of `s`. */
  function MatchTag(s: string): (r: Option<Tag>)
    ensures r.Some? ==> r.value.name in NonVoid && MatchName(s, r.value.name) == Some(r.value.attrs)
  {
    var r := MatchTagIn(s, NonVoid);
    if r.Some? then InListIff(r.value.name, NonVoid); r else r
  }

  /** One left-to-right substitution pass with the alternation over `names`. */
  function FixWith(html: string, names: seq<string>): string
    decreases |html|
  {
    if html == [] then []
    else match MatchTagIn(html, names)
      case Some(t) => Paired(t) + FixWith(html[|SelfClosed(t)|..], names)
      case None => [html[0]] + FixWith(html[1..], names)
  }

  /** `fix_self_closing(html)`. */
  function FixSelfClosing(html: string): string
  {
    FixWith(html, NonVoid)
  }

  lemma {:induction false} WordRunIs(s: string, n: nat)
    requires n <= |s| && WordChars(s[..n]) && (n < |s| ==> !IsWordChar(s[n]))
    ensures WordRun(s) == n
  {
    if n > 0 {
      assert s[0] == s[..n][0];
      assert s[1..][..n - 1] == s[..n][1..];
      WordRunIs(s[1..], n - 1);
    }
  }

  /** A shorter word stops inside `v`, where the next character is a word character. */
  lemma ShorterNameFails(v: string, rest: string, name: string)
    requires WordChars(v) && |name| < |v|
    ensures MatchName("<" + v + rest, name).None?
  {
    var s := "<" + v + rest;
    var n := |name| + 1;
    if n < |s| {
      assert s[n] == v[|name|];
    }
  }

  /** A longer word would have to cover the non-word character after `v`. */
  lemma LongerNameFails(v: string, rest: string, name: string)
    requires IsWord(name) && |name| > |v| && (rest == [] || !IsWordChar(rest[0]))
    ensures MatchName("<" + v + rest, name).None?
  {
    var s := "<" + v + rest;
    var n := |name| + 1;
    if n < |s| {
      assert s[|v| + 1] == rest[0];
      assert s[1..n][|v|] == s[|v| + 1];
    }
  }

  /**
   * The `\b` after the name: when `<v` is followed by a non-word character or
   * the end, no other word can pass the name test there.
   */
  lemma OnlyTheHeadName(v: string, rest: string, name: string)
    requires WordChars(v) && IsWord(name) && (rest == [] || !IsWordChar(rest[0]))
    ensures MatchName("<" + v + rest, name).Some? ==> name == v
  {
    var s := "<" + v + rest;
    var n := |name| + 1;
    if |name| < |v| {
      ShorterNameFails(v, rest, name);
    } else if |name| > |v| {
      LongerNameFails(v, rest, name);
    } else if n < |s| {
      assert s[1..n] == v;
    }
  }

  /** The alternation over a list of words, at a position holding `<v` and a boundary. */
  lemma {:induction false} MatchFromHead(v: string, rest: string, names: seq<string>)
    requires WordChars(v) && (rest == [] || !IsWordChar(rest[0]))
    requires AllWords(names)
    ensures var s := "<" + v + rest;
      MatchFrom(s, names) ==
        if v in names && MatchName(s, v).Some? then Some(Tag(v, MatchName(s, v).value)) else None
  {
    var s := "<" + v + rest;
    if names != [] {
      OnlyTheHeadName(v, rest, names[0]);
      if MatchName(s, names[0]).None? {
        assert AllWords(names[1..]) by {
          forall i | 0 <= i < |names[1..]|
            ensures IsWord(names[1..][i])
          {
            assert names[1..][i] == names[i + 1];
          }
        }
        MatchFromHead(v, rest, names[1..]);
        assert v in names <==> v == names[0] || v in names[1..];
      }
    }
  }

  /** The run of word characters after `<` in `<v rest` is `v`, when `rest` starts at a boundary. */
  lemma HeadName(v: string, rest: string)
    requires WordChars(v) && (rest == [] || !IsWordChar(rest[0]))
    ensures var s := "<" + v + rest; s[1..1 + WordRun(s[1..])] == v
  {
    var s := "<" + v + rest;
    assert s[1..] == v + rest;
    assert (v + rest)[..|v|] == v;
    WordRunIs(v + rest, |v|);
  }

  /** `MatchTagIn` is the alternation over a list of words tried in list order. */
  lemma MatchTagInIsAlternation(s: string, names: seq<string>)
    requires AllWords(names)
    ensures MatchTagIn(s, names) == MatchFrom(s, names)
  {
    if s != [] && s[0] == '<' {
      var v := s[1..1 + WordRun(s[1..])];
      var rest := s[1 + |v|..];
      assert v == s[1..][..WordRun(s[1..])];
      assert s == "<" + v + rest;
      assert rest != [] ==> rest[0] == s[1..][WordRun(s[1..])];
      InListIff(v, names);
      MatchFromHead(v, rest, names);
    }
  }

  /** `MatchTag` is the alternation tried in list order. */
  lemma MatchTagIsAlternation(s: string)
    ensures MatchTag(s) == MatchFrom(s, NonVoid)
  {
    NonVoidAreWords();
    MatchTagInIsAlternation(s, NonVoid);
  }

  /**
   * After the name, the first `>` is `k` characters on, right after a `/`,
   * and the attribute text before that `/` is `attrs`.
   */
  predicate ClosesAt(x: string, k: nat, attrs: string)
  {
    IndexOf(x, '>') == Some(k) && k >= 1 && x[k - 1] == '/' && x[..k - 1] == attrs
  }

  /** The pattern matches at the start of `s` for `name`, with the closing part as above. */
  predicate NameMatches(s: string, name: string, k: nat, attrs: string)
  {
    var n := |name| + 1;
    n < |s| && s[0] == '<' && s[1..n] == name && !IsWordChar(s[n]) && ClosesAt(s[n..], k, attrs)
  }

  lemma MatchNameIs(s: string, name: string, k: nat, attrs: string)
    requires NameMatches(s, name, k, attrs)
    ensures MatchName(s, name) == Some(attrs)
  {
    var n := |name| + 1;
    assert s[n + k - 1] == s[n..][k - 1];
    assert s[n..n + k - 1] == s[n..][..k - 1];
  }

  /** The closing part of `attrs/>u` when `attrs` holds no `>`. */
  lemma SelfClosedCloses(attrs: string, u: string)
    requires '>' !in attrs
    ensures ClosesAt(attrs + "/>" + u, |attrs| + 1, attrs)
  {
    var x := attrs + "/>" + u;
    var k := |attrs| + 1;
    assert x[..k] == attrs + "/" && x[k] == '>';
    IndexOfFirst(x, '>', k);
    assert x[..k - 1] == attrs;
  }

  /** Where the parts of `<name attrs/>` are. */
  lemma SelfClosedMatches(t: Tag, u: string)
    requires '>' !in t.attrs
    requires t.attrs == [] || !IsWordChar(t.attrs[0])
    ensures NameMatches(SelfClosed(t) + u, t.name, |t.attrs| + 1, t.attrs)
  {
    var x := t.attrs + "/>" + u;
    var s := SelfClosed(t) + u;
    var n := |t.name| + 1;
    assert s == "<" + t.name + x;
    assert s[1..n] == t.name && s[n..] == x;
    assert s[n] == x[0];
    SelfClosedCloses(t.attrs, u);
  }

  /** The pattern with the name fixed finds `<name attrs/>` when the attribute text holds no `>`. */
  lemma MatchNameSelfClosed(t: Tag, u: string)
    requires '>' !in t.attrs
    requires t.attrs == [] || !IsWordChar(t.attrs[0])
    ensures MatchName(SelfClosed(t) + u, t.name) == Some(t.attrs)
  {
    SelfClosedMatches(t, u);
    MatchNameIs(SelfClosed(t) + u, t.name, |t.attrs| + 1, t.attrs);
  }

  /** `<name attrs/>` is matched as a whole when `name` is listed and the attribute text starts at a boundary and holds no `>`. */
  lemma MatchSelfClosedIn(t: Tag, u: string, names: seq<string>)
    requires InList(t.name, names) && WordChars(t.name) && '>' !in t.attrs
    requires t.attrs == [] || !IsWordChar(t.attrs[0])
    ensures MatchTagIn(SelfClosed(t) + u, names) == Some(t)
  {
    MatchNameSelfClosed(t, u);
    var s := SelfClosed(t) + u;
    assert s != [] && s[0] == '<' && s[1..1 + WordRun(s[1..])] == t.name by {
      SelfClosedThen(t, u);
      HeadName(t.name, t.attrs + "/>" + u);
    }
  }

  /** `<name attrs/>` is matched as a whole for an allow-listed name. */
  lemma MatchSelfClosed(t: Tag, u: string)
    requires t.name in NonVoid && '>' !in t.attrs
    requires t.attrs == [] || !IsWordChar(t.attrs[0])
    ensures MatchTag(SelfClosed(t) + u) == Some(t)
  {
    assert IsWord(t.name) by { NonVoidAreWords(); }
    InListIff(t.name, NonVoid);
    MatchSelfClosedIn(t, u, NonVoid);
  }

  /** Rewriting with the alternation over `names`. */
  lemma FixWithSelfClosedTag(t: Tag, u: string, names: seq<string>)
    requires InList(t.name, names) && WordChars(t.name) && '>' !in t.attrs
    requires t.attrs == [] || !IsWordChar(t.attrs[0])
    ensures FixWith(SelfClosed(t) + u, names) == Paired(t) + FixWith(u, names)
  {
    MatchSelfClosedIn(t, u, names);
    assert (SelfClosed(t) + u)[|SelfClosed(t)|..] == u;
  }

  /** Rewriting: a self-closed allow-listed element becomes an open and a close tag. */
  lemma FixSelfClosedTag(t: Tag, u: string)
    requires t.name in NonVoid && '>' !in t.attrs
    requires t.attrs == [] || !IsWordChar(t.attrs[0])
    ensures FixSelfClosing(SelfClosed(t) + u) == Paired(t) + FixSelfClosing(u)
  {
    assert IsWord(t.name) by { NonVoidAreWords(); }
    InListIff(t.name, NonVoid);
    FixWithSelfClosedTag(t, u, NonVoid);
  }

  /** Text at whose positions the pattern never matches is copied through. */
  lemma FixCopies(a: string, b: string, names: seq<string>)
    requires forall i :: 0 <= i < |a| ==> MatchTagIn((a + b)[i..], names).None?
    ensures FixWith(a + b, names) == a + FixWith(b, names)
  {
    forall s | s != [] && MatchTagIn(s, names).None?
      ensures FixWith(s, names) == [s[0]] + FixWith(s[1..], names)
    {
    }
    CopiesPrefix(s => FixWith(s, names), s => MatchTagIn(s, names).None?, a, b);
  }

  /** `<v attrs/>` is copied through when `v` is not in the list. */
  lemma UnlistedUnchanged(v: string, attrs: string, u: string, names: seq<string>)
    requires IsWord(v) && !InList(v, names) && '<' !in attrs
    requires attrs == [] || !IsWordChar(attrs[0])
    ensures FixWith("<" + v + attrs + "/>" + u, names) == "<" + v + attrs + "/>" + FixWith(u, names)
  {
    var a := "<" + v + attrs + "/>";
    assert MatchTagIn(a + u, names).None? by {
      var s := a + u;
      assert s == "<" + v + (attrs + "/>" + u);
      HeadName(v, attrs + "/>" + u);
    }
    forall i | 0 < i < |a|
      ensures MatchTagIn((a + u)[i..], names).None?
    {
      assert (a + u)[i..][0] == a[i] != '<';
    }
    assert (a + u)[0..] == a + u;
    FixCopies(a, u, names);
  }

  /**
   * Void and other elements outside the allow-list are left as they are:
   * `<v attrs/>` is copied through unchanged.
   */
  lemma VoidTagUnchanged(v: string, attrs: string, u: string)
    requires IsWord(v) && v !in NonVoid && '<' !in attrs
    requires attrs == [] || !IsWordChar(attrs[0])
    ensures FixSelfClosing("<" + v + attrs + "/>" + u) == "<" + v + attrs + "/>" + FixSelfClosing(u)
  {
    InListIff(v, NonVoid);
    UnlistedUnchanged(v, attrs, u, NonVoid);
  }

  /** `br`, `img` and `pre` are words outside the allow-list. */
  lemma BreakNotListed()
    ensures IsWord("br") && "br" !in NonVoid
  {
  }

  lemma ImageNotListed()
    ensures IsWord("img") && "img" !in NonVoid
  {
  }

  lemma PreNotListed()
    ensures IsWord("pre") && "pre" !in NonVoid
  {
  }

  /** Self-closed `<br .../>` is left as it is. */
  lemma BreakUnchanged(attrs: string, u: string)
    requires '<' !in attrs && (attrs == [] || !IsWordChar(attrs[0]))
    ensures FixSelfClosing("<br" + attrs + "/>" + u) == "<br" + attrs + "/>" + FixSelfClosing(u)
  {
    BreakNotListed();
    assert "<br" == "<" + "br";
    VoidTagUnchanged("br", attrs, u);
  }

  /** Self-closed `<img .../>` is left as it is. */
  lemma ImageUnchanged(attrs: string, u: string)
    requires '<' !in attrs && (attrs == [] || !IsWordChar(attrs[0]))
    ensures FixSelfClosing("<img" + attrs + "/>" + u) == "<img" + attrs + "/>" + FixSelfClosing(u)
  {
    ImageNotListed();
    assert "<img" == "<" + "img";
    VoidTagUnchanged("img", attrs, u);
  }

  /** `<pre .../>` is not taken for `<p`: the name must end at a boundary. */
  lemma PreUnchanged(attrs: string, u: string)
    requires '<' !in attrs && (attrs == [] || !IsWordChar(attrs[0]))
    ensures FixSelfClosing("<pre" + attrs + "/>" + u) == "<pre" + attrs + "/>" + FixSelfClosing(u)
  {
    PreNotListed();
    assert "<pre" == "<" + "pre";
    VoidTagUnchanged("pre", attrs, u);
  }

  /** No position of `s` starts a `/>`. */
  predicate NoSlashGt(s: string)
  {
    forall i :: 0 <= i < |s| - 1 ==> !(s[i] == '/' && s[i + 1] == '>')
  }

  /** Every match covers a `/>`. */
  lemma MatchCoversSlashGt(s: string, names: seq<string>)
    ensures MatchTagIn(s, names).Some? ==> !NoSlashGt(s)
  {
    if MatchTagIn(s, names).Some? {
      var t := MatchTagIn(s, names).value;
      MatchNameCovers(s, t.name);
      var j := |SelfClosed(t)| - 2;
      assert s[j] == SelfClosed(t)[j] == '/';
      assert s[j + 1] == SelfClosed(t)[j + 1] == '>';
    }
  }

  /** Text without `/>` is left as it is, whatever the list. */
  lemma {:induction false} FixWithoutSlashGtWith(s: string, names: seq<string>)
    requires NoSlashGt(s)
    ensures FixWith(s, names) == s
    decreases |s|
  {
    if s != [] {
      MatchCoversSlashGt(s, names);
      assert NoSlashGt(s[1..]) by {
        forall i | 0 <= i < |s[1..]| - 1
          ensures !(s[1..][i] == '/' && s[1..][i + 1] == '>')
        {
          assert s[1..][i] == s[i + 1] && s[1..][i + 1] == s[i + 2];
        }
      }
      FixWithoutSlashGtWith(s[1..], names);
      assert s == [s[0]] + s[1..];
    }
  }

  /** Text without `/>` is left as it is. */
  lemma FixWithoutSlashGt(s: string)
    requires NoSlashGt(s)
    ensures FixSelfClosing(s) == s
  {
    FixWithoutSlashGtWith(s, NonVoid);
  }

  /** A repaired pair has no `/>` when its attribute text has none and does not end in `/`. */
  lemma PairedNoSlashGt(t: Tag)
    requires IsWord(t.name) && NoSlashGt(t.attrs)
    requires t.attrs == [] || t.attrs[|t.attrs| - 1] != '/'
    ensures NoSlashGt(Paired(t))
  {
    var p, n, a := Paired(t), |t.name|, |t.attrs|;
    assert |p| == 2 * n + a + 5;
    forall i | 0 <= i < |p| - 1
      ensures !(p[i] == '/' && p[i + 1] == '>')
    {
      if i == 0 {
      } else if i <= n {
        assert p[i] == t.name[i - 1];
      } else if i < n + a {
        assert p[i] == t.attrs[i - n - 1] && p[i + 1] == t.attrs[i - n];
      } else if i == n + a {
        assert p[i + 1] == '>';
        if a > 0 {
          assert p[i] == t.attrs[a - 1];
        }
      } else if i <= n + a + 2 {
      } else if i == n + a + 3 {
        assert p[i + 1] == t.name[0];
      } else {
        assert p[i] == t.name[i - n - a - 4];
      }
    }
  }

  /**
   * Repairing a repaired pair changes nothing, as long as its attribute text
   * holds no `/>` and does not end in `/`.
   */
  lemma RepairedTagUnchanged(t: Tag)
    requires IsWord(t.name) && NoSlashGt(t.attrs)
    requires t.attrs == [] || t.attrs[|t.attrs| - 1] != '/'
    ensures FixSelfClosing(Paired(t)) == Paired(t)
  {
    PairedNoSlashGt(t);
    FixWithoutSlashGt(Paired(t));
  }

  /** A pair whose attribute text ends in `/` reads as a self-closed tag followed by a closing tag. */
  lemma PairedWithSlash(name: string, attrs: string)
    ensures Paired(Tag(name, attrs + "/")) == SelfClosed(Tag(name, attrs)) + ("</" + name + ">")
  {
    var close := "</" + name + ">";
    calc {
      Paired(Tag(name, attrs + "/"));
      "<" + name + (attrs + "/") + "></" + name + ">";
      { assert (attrs + "/") + "></" == attrs + "/>" + "</"; }
      "<" + name + attrs + "/>" + close;
    }
  }

  /** Every allow-listed name is a word. */
  lemma ListedIsWord(name: string)
    requires name in NonVoid
    ensures IsWord(name)
  {
    NonVoidAreWords();
  }

  /** A closing tag `</name>` holds no `/>`. */
  lemma CloseTagNoSlashGt(name: string)
    requires IsWord(name)
    ensures NoSlashGt("</" + name + ">")
  {
    var close := "</" + name + ">";
    forall i | 0 <= i < |close| - 1
      ensures !(close[i] == '/' && close[i + 1] == '>')
    {
      if 2 <= i {
        assert close[i] == name[i - 2];
      } else if i == 1 {
        assert close[i + 1] == name[0];
      }
    }
  }

  /** The second pass over `<name attrs/></name>`: the self-closed tag is repaired, the closing tag kept. */
  lemma RepairSlashPair(name: string, attrs: string)
    requires name in NonVoid && '>' !in attrs && (attrs == [] || !IsWordChar(attrs[0]))
    ensures FixSelfClosing(Paired(Tag(name, attrs + "/"))) == Paired(Tag(name, attrs)) + ("</" + name + ">")
  {
    var close := "</" + name + ">";
    ListedIsWord(name);
    PairedWithSlash(name, attrs);
    FixSelfClosedTag(Tag(name, attrs), close);
    CloseTagNoSlashGt(name);
    FixWithoutSlashGt(close);
  }

  /** The first pass over `<name attrs//>`. */
  lemma RepairSlashTag(name: string, attrs: string)
    requires name in NonVoid && '>' !in attrs && (attrs == [] || !IsWordChar(attrs[0]))
    ensures FixSelfClosing(SelfClosed(Tag(name, attrs + "/"))) == Paired(Tag(name, attrs + "/"))
  {
    var t := Tag(name, attrs + "/");
    assert SelfClosed(t) + "" == SelfClosed(t);
    assert Paired(t) + "" == Paired(t);
    FixSelfClosedTag(t, "");
  }

  /**
   * Without that condition a second pass does change the text: attribute text
   * ending in `/` leaves a new `/>` behind (`<div x//>` becomes
   * `<div x/></div>`, and then `<div x></div></div>`).
   */
  lemma RepairTwiceDiffers(name: string, attrs: string)
    requires name in NonVoid && '>' !in attrs && (attrs == [] || !IsWordChar(attrs[0]))
    ensures var once := FixSelfClosing(SelfClosed(Tag(name, attrs + "/")));
      && once == Paired(Tag(name, attrs + "/"))
      && FixSelfClosing(once) == Paired(Tag(name, attrs)) + ("</" + name + ">")
      && FixSelfClosing(once) != once
  {
    RepairSlashTag(name, attrs);
    RepairSlashPair(name, attrs);
    assert |Paired(Tag(name, attrs)) + ("</" + name + ">")| != |Paired(Tag(name, attrs + "/"))|;
  }
}
