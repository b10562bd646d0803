/**
 * Character classes and small string operations the converter relies on,
 * restricted to ASCII: digits as matched by `\d`, word characters as used by
 * `\b`, the whitespace removed by `str.strip`, lower-casing, the final
 * component and suffix of a POSIX path, and `'\n'.join`.
 */
module Text {
  import opened Wrappers

  predicate IsDigit(c: char) { '0' <= c <= '9' }

  /** A character of `\w`: letters, digits and the underscore. */
  predicate IsWordChar(c: char) { 'a' <= c <= 'z' || 'A' <= c <= 'Z' || IsDigit(c) || c == '_' }

  /** The ASCII characters `str.isspace` accepts: tab to carriage return, the four separators 0x1C-0x1F, and space. */
  predicate IsSpace(c: char) { 9 <= c as int <= 13 || 28 <= c as int <= 31 || c == ' ' }

  predicate AllDigits(s: string) { forall i :: 0 <= i < |s| ==> IsDigit(s[i]) }

  predicate NoDigits(s: string) { forall i :: 0 <= i < |s| ==> !IsDigit(s[i]) }

  predicate AllSpace(s: string) { forall i :: 0 <= i < |s| ==> IsSpace(s[i]) }

  /** Neither the first nor the last character is whitespace. */
  predicate NoEdgeSpace(s: string) { s != [] ==> !IsSpace(s[0]) && !IsSpace(s[|s| - 1]) }

  /** The index of the first occurrence of `c` in `s`, if any. */
  function IndexOf(s: string, c: char): (r: Option<nat>)
    ensures r.Some? ==> r.value < |s| && s[r.value] == c && c !in s[..r.value]
    ensures r.None? <==> c !in s
  {
    if s == [] then None
    else if s[0] == c then Some(0)
    else match IndexOf(s[1..], c)
      case None => None
      case Some(k) => Some(k + 1)
  }

  /** `IndexOf` is exactly the first occurrence. */
  lemma {:induction false} IndexOfFirst(s: string, c: char, k: nat)
    requires k < |s| && s[k] == c && c !in s[..k]
    ensures IndexOf(s, c) == Some(k)
  {
    if k > 0 {
      assert s[0] == s[..k][0];
      assert s[1..][..k - 1] == s[1..k];
      assert forall i :: 0 <= i < k - 1 ==> s[1..k][i] == s[..k][i + 1];
      IndexOfFirst(s[1..], c, k - 1);
    }
  }

  /** `IndexOf` finds an occurrence at or before any given one. */
  lemma {:induction false} IndexOfAtMost(s: string, c: char, d: nat)
    requires d < |s| && s[d] == c
    ensures IndexOf(s, c).Some? && IndexOf(s, c).value <= d
  {
    if d > 0 && s[0] != c {
      assert s[1..][d - 1] == s[d];
      IndexOfAtMost(s[1..], c, d - 1);
    }
  }

  /** The index of the last occurrence of `c` in `s`, if any. */
  function LastIndexOf(s: string, c: char): (r: Option<nat>)
    ensures r.Some? ==> r.value < |s| && s[r.value] == c && c !in s[r.value + 1..]
    ensures r.None? <==> c !in s
  {
    if s == [] then None
    else if s[|s| - 1] == c then Some(|s| - 1)
    else
      var r := LastIndexOf(s[..|s| - 1], c);
      assert s == s[..|s| - 1] + [s[|s| - 1]];
      r
  }

  /** `LastIndexOf` is exactly the last occurrence. */
  lemma {:induction false} LastIndexOfIs(s: string, c: char, k: nat)
    requires k < |s| && s[k] == c && c !in s[k + 1..]
    ensures LastIndexOf(s, c) == Some(k)
  {
    if k < |s| - 1 {
      assert s[|s| - 1] == s[k + 1..][|s| - 2 - k];
      var t := s[..|s| - 1];
      assert t[k + 1..] == s[k + 1..|s| - 1];
      LastIndexOfIs(t, c, k);
    }
  }

  /** `s.lstrip()`. */
  function StripStart(s: string): (r: string)
    ensures |r| <= |s| && r == s[|s| - |r|..]
    ensures forall i :: 0 <= i < |s| - |r| ==> IsSpace(s[i])
    ensures r != [] ==> !IsSpace(r[0])
    decreases |s|
  {
    if s != [] && IsSpace(s[0]) then
      var r := StripStart(s[1..]);
      assert s[1..][|s| - 1 - |r|..] == s[|s| - |r|..];
      assert forall i :: 1 <= i < |s| ==> s[1..][i - 1] == s[i];
      r
    else s
  }

  /** `s.rstrip()`. */
  function StripEnd(s: string): (r: string)
    ensures |r| <= |s| && r == s[..|r|]
    ensures forall i :: |r| <= i < |s| ==> IsSpace(s[i])
    ensures r != [] ==> !IsSpace(r[|r| - 1])
    decreases |s|
  {
    if s != [] && IsSpace(s[|s| - 1]) then
      var r := StripEnd(s[..|s| - 1]);
      assert s[..|s| - 1][..|r|] == s[..|r|];
      r
    else s
  }

  /** `r` is `s` with `i` whitespace characters removed before it and only whitespace after it. */
  ghost predicate StrippedAt(r: string, s: string, i: int)
  {
    0 <= i <= |s| - |r| && r == s[i..i + |r|] && AllSpace(s[..i]) && AllSpace(s[i + |r|..])
  }

  /** Removing leading and then trailing whitespace leaves an infix with only whitespace around it. */
  lemma StripPieces(s: string, i: nat, a: string, r: string)
    requires i + |a| == |s| && a == s[i..] && (forall j :: 0 <= j < i ==> IsSpace(s[j]))
    requires a != [] ==> !IsSpace(a[0])
    requires |r| <= |a| && r == a[..|r|] && (forall j :: |r| <= j < |a| ==> IsSpace(a[j]))
    requires r != [] ==> !IsSpace(r[|r| - 1])
    ensures NoEdgeSpace(r) && StrippedAt(r, s, i)
  {
    assert r != [] ==> r[0] == a[0];
    assert s[i..i + |r|] == r by {
      forall j | 0 <= j < |r|
        ensures s[i..i + |r|][j] == r[j]
      {
        assert r[j] == a[j] == s[i + j];
      }
    }
    assert AllSpace(s[..i]) by {
      forall j | 0 <= j < i
        ensures IsSpace(s[..i][j])
      {
        assert s[..i][j] == s[j];
      }
    }
    var tail := s[i + |r|..];
    assert AllSpace(tail) by {
      forall j | 0 <= j < |tail|
        ensures IsSpace(tail[j])
      {
        assert tail[j] == a[|r| + j];
      }
    }
  }

  /** `s.strip()`: the infix left once all leading and trailing whitespace is removed. */
  function Strip(s: string): (r: string)
    ensures NoEdgeSpace(r)
    ensures exists i :: StrippedAt(r, s, i)
  {
    var a := StripStart(s);
    var r := StripEnd(a);
    StripPieces(s, |s| - |a|, a, r);
    r
  }

  /** Stripping leaves nothing exactly when the text is all whitespace. */
  lemma StripEmpty(s: string)
    ensures Strip(s) == [] <==> AllSpace(s)
  {
    var r := Strip(s);
    var i :| StrippedAt(r, s, i);
    if r == [] {
      forall j | 0 <= j < |s| ensures IsSpace(s[j]) {
        if j < i {
          assert s[..i][j] == s[j];
        } else {
          assert s[i..][j - i] == s[j];
        }
      }
    } else {
      assert s[i] == r[0];
    }
  }

  /** ASCII `str.lower`. */
  function Lower(s: string): (r: string)
    ensures |r| == |s|
    ensures forall i :: 0 <= i < |s| ==>
      r[i] == if 'A' <= s[i] <= 'Z' then (s[i] as int + 32) as char else s[i]
  {
    if s == [] then [] else
      var c := if 'A' <= s[0] <= 'Z' then (s[0] as int + 32) as char else s[0];
      [c] + Lower(s[1..])
  }

  /** `r` occupies the whole `/`-separated component of `p` that starts at index `k`. */
  ghost predicate ComponentAt(r: string, p: string, k: int)
  {
    0 <= k <= |p| - |r| && p[k..k + |r|] == r
    && (k == 0 || p[k - 1] == '/') && (k + |r| == |p| || p[k + |r|] == '/')
  }

  /** A component of the text before a `/` is a component of the whole. */
  lemma ComponentOfPrefix(r: string, p: string, k: nat, j: nat)
    requires k < |p| && p[k] == '/' && ComponentAt(r, p[..k], j)
    ensures ComponentAt(r, p, j)
  {
    var q := p[..k];
    var a, b := p[j..j + |r|], q[j..j + |r|];
    forall i | 0 <= i < |r|
      ensures a[i] == b[i]
    {
      assert b[i] == q[j + i] == p[j + i];
    }
    assert a == b;
    assert j > 0 ==> p[j - 1] == q[j - 1];
  }

  /**
   * `PurePosixPath(p).name`: the last `/`-separated component that is
   * neither empty nor `.`, or the empty string when there is none.
   */
  function PathName(p: string): (r: string)
    ensures '/' !in r && r != "."
    ensures r != [] ==> exists k :: ComponentAt(r, p, k)
    decreases |p|
  {
    match LastIndexOf(p, '/')
    case None =>
      assert ComponentAt(p, p, 0);
      if p == "." then "" else p
    case Some(k) =>
      var last := p[k + 1..];
      if last == "" || last == "." then
        var r := PathName(p[..k]);
        assert r != [] ==> exists j :: ComponentAt(r, p, j) by {
          if r != [] {
            var j :| ComponentAt(r, p[..k], j);
            ComponentOfPrefix(r, p, k, j);
          }
        }
        r
      else
        assert ComponentAt(last, p, k + 1);
        last
  }

  /** The name of `dir/name` is `name`, whatever the directory part. */
  lemma PathNameOfChild(dir: string, name: string)
    requires name != [] && name != "." && '/' !in name
    ensures PathName(dir + "/" + name) == name
  {
    var p := dir + "/" + name;
    assert p[|dir|] == '/';
    assert p[|dir| + 1..] == name;
  }

  /** A name without `/` is its own name, unless it is `.`. */
  lemma PathNameOfPlain(name: string)
    requires name != "." && '/' !in name
    ensures PathName(name) == name
  {
  }

  /** A trailing `/` or `/.` does not change the name: `a/b/` and `a/b/.` are both named `b`. */
  lemma PathNameTrailing(p: string)
    ensures PathName(p + "/") == PathName(p)
    ensures PathName(p + "/.") == PathName(p)
  {
    var q, r := p + "/", p + "/.";
    LastIndexOfIs(q, '/', |p|);
    assert q[..|p|] == p && q[|p| + 1..] == "";
    LastIndexOfIs(r, '/', |p|);
    assert r[..|p|] == p && r[|p| + 1..] == ".";
  }

  /**
   * `PurePath(name).suffix`: from the last `.` on, provided that dot is
   * neither the first nor the last character; otherwise empty.
   */
  function Suffix(name: string): (r: string)
    ensures r == [] || (r[0] == '.' && |r| >= 2 && |r| < |name| && r == name[|name| - |r|..] && '.' !in r[1..])
  {
    match LastIndexOf(name, '.')
    case None => ""
    case Some(i) => if 0 < i < |name| - 1 then name[i..] else ""
  }

  /**
   * With `i` the position of the last `.` in `name`, the suffix is non-empty
   * exactly when that dot is neither the first nor the last character, and
   * then it runs from the dot to the end: `a.tar.gz` gives `.gz`, while
   * `.ttf` and `a.b.` give nothing.
   */
  lemma SuffixAt(name: string, i: nat)
    requires i < |name| && name[i] == '.' && '.' !in name[i + 1..]
    ensures Suffix(name) != [] <==> 0 < i < |name| - 1
    ensures Suffix(name) != [] ==> Suffix(name) == name[i..]
  {
    LastIndexOfIs(name, '.', i);
  }

  /** `'\n'.join(parts)`. */
  function Join(parts: seq<string>): (r: string)
  {
    if parts == [] then ""
    else if |parts| == 1 then parts[0]
    else parts[0] + "\n" + Join(parts[1..])
  }

  /** Joining two non-empty runs of lines puts one separator between them. */
  lemma {:induction false} JoinAppend(a: seq<string>, b: seq<string>)
    requires a != [] && b != []
    ensures Join(a + b) == Join(a) + "\n" + Join(b)
  {
    if |a| == 1 {
      assert (a + b)[1..] == b;
    } else {
      assert (a + b)[1..] == a[1..] + b;
      JoinAppend(a[1..], b);
    }
  }

  /** `p` occurs in `s` at index `i`. */
  predicate OccursAt(s: string, p: string, i: nat)
  {
    i + |p| <= |s| && s[i..i + |p|] == p
  }

  /** The last start in `[lo, hi)` of an occurrence of `p` in `s`. */
  function LastOccurrence(s: string, p: string, lo: nat, hi: nat): (r: Option<nat>)
    ensures r.Some? ==> lo <= r.value < hi && OccursAt(s, p, r.value)
    ensures r.Some? ==> forall j :: r.value < j < hi ==> !OccursAt(s, p, j)
    ensures r.None? ==> forall j :: lo <= j < hi ==> !OccursAt(s, p, j)
    decreases hi
  {
    if hi <= lo then None
    else if OccursAt(s, p, hi - 1) then Some(hi - 1)
    else LastOccurrence(s, p, lo, hi - 1)
  }

  lemma {:induction false} LastOccurrenceIs(s: string, p: string, lo: nat, hi: nat, i: nat)
    requires lo <= i < hi && OccursAt(s, p, i)
    requires forall j :: i < j < hi ==> !OccursAt(s, p, j)
    ensures LastOccurrence(s, p, lo, hi) == Some(i)
    decreases hi
  {
    if i < hi - 1 {
      LastOccurrenceIs(s, p, lo, hi - 1, i);
    }
  }

  /** An occurrence inside a later part of a concatenation. */
  lemma OccursInSuffix(x: string, y: string, p: string, j: nat)
    requires |x| <= j
    ensures OccursAt(x + y, p, j) ==> OccursAt(y, p, j - |x|)
  {
    if OccursAt(x + y, p, j) {
      assert (x + y)[j..j + |p|] == y[j - |x|..j - |x| + |p|];
    }
  }

  /** An occurrence inside an earlier part of a concatenation. */
  lemma OccursInPrefix(x: string, y: string, p: string, j: nat)
    requires j + |p| <= |x|
    ensures OccursAt(x + y, p, j) ==> OccursAt(x, p, j)
  {
    assert (x + y)[j..j + |p|] == x[j..j + |p|];
  }

  /** `p` occurs nowhere in `s`. */
  predicate Absent(s: string, p: string)
  {
    forall i: nat :: i <= |s| ==> !OccursAt(s, p, i)
  }

  /** A text free of `p` has every suffix free of it. */
  lemma AbsentFrom(s: string, p: string, i: nat)
    requires i <= |s| && Absent(s, p)
    ensures Absent(s[i..], p)
  {
    forall j: nat | j <= |s[i..]|
      ensures !OccursAt(s[i..], p, j)
    {
      assert !OccursAt(s, p, i + j);
      assert i + j + |p| <= |s| ==> s[i..][j..j + |p|] == s[i + j..i + j + |p|];
    }
  }

  /** The characters of an occurrence are those of `p`. */
  lemma OccursAtChar(s: string, p: string, i: nat, j: nat)
    requires j < |p|
    ensures OccursAt(s, p, i) ==> i + j < |s| && s[i + j] == p[j]
  {
    if OccursAt(s, p, i) {
      assert s[i..i + |p|][j] == s[i + j];
    }
  }

  /** A text that lacks one of the characters of `p` holds no occurrence of `p`. */
  lemma AbsentWithout(s: string, p: string, j: nat)
    requires j < |p| && p[j] !in s
    ensures Absent(s, p)
  {
    forall i: nat | i <= |s|
      ensures !OccursAt(s, p, i)
    {
      OccursAtChar(s, p, i, j);
    }
  }

  /**
   * `p` occurs nowhere in `pre + mid + post` when it occurs nowhere in `mid`,
   * `pre` lacks its first character and `post` lacks all of its characters.
   */
  lemma AbsentFramed(pre: string, mid: string, post: string, p: string)
    requires p != [] && p[0] !in pre && Absent(mid, p)
    requires post != [] && forall j :: 0 <= j < |post| ==> post[j] !in p
    ensures Absent(pre + mid + post, p)
  {
    var s := pre + mid + post;
    forall i: nat | i <= |s|
      ensures !OccursAt(s, p, i)
    {
      OccursAtChar(s, p, i, 0);
      if i < |pre| {
        assert s[i] == pre[i];
      } else if i < |pre| + |mid| {
        if i + |p| <= |pre| + |mid| {
          OccursInPrefix(pre + mid, post, p, i);
          OccursInSuffix(pre, mid, p, i);
        } else {
          OccursAtChar(s, p, i, |pre| + |mid| - i);
          assert s[|pre| + |mid|] == post[0];
        }
      } else {
        assert i < |s| ==> s[i] == post[i - |pre| - |mid|];
      }
    }
  }

  /**
   * No occurrence of `p` in `a + b` starts inside `a` when `a` holds none
   * and ends with a character that `p` lacks.
   */
  lemma NoneStartsIn(a: string, b: string, p: string)
    requires Absent(a, p) && a != [] && a[|a| - 1] !in p
    ensures forall i: nat :: i < |a| ==> !OccursAt(a + b, p, i)
  {
    forall i: nat | i < |a|
      ensures !OccursAt(a + b, p, i)
    {
      if i + |p| <= |a| {
        OccursInPrefix(a, b, p, i);
      } else {
        OccursAtChar(a + b, p, i, |a| - 1 - i);
        assert (a + b)[|a| - 1] == a[|a| - 1];
      }
    }
  }

  /**
   * A left-to-right rewrite `f` that copies the first character of any text
   * on which `quiet` holds copies a whole prefix on which it holds everywhere.
   */
  lemma {:induction false} CopiesPrefix(f: string -> string, quiet: string -> bool, a: string, b: string)
    requires forall s {:trigger quiet(s)} :: s != [] && quiet(s) ==> f(s) == [s[0]] + f(s[1..])
    requires forall i {:trigger quiet((a + b)[i..])} :: 0 <= i < |a| ==> quiet((a + b)[i..])
    ensures f(a + b) == a + f(b)
    decreases |a|
  {
    if a == [] {
      assert a + b == b;
    } else {
      var s := a + b;
      assert f(s) == [a[0]] + f(a[1..] + b) by {
        assert s[0..] == s;
        assert quiet(s);
        assert s[1..] == a[1..] + b;
      }
      assert forall i :: 0 <= i < |a[1..]| ==> quiet((a[1..] + b)[i..]) by {
        forall i | 0 <= i < |a[1..]|
          ensures quiet((a[1..] + b)[i..])
        {
          assert (a[1..] + b)[i..] == s[i + 1..];
        }
      }
      CopiesPrefix(f, quiet, a[1..], b);
      assert [a[0]] + (a[1..] + f(b)) == a + f(b) by {
        assert a == [a[0]] + a[1..];
      }
    }
  }
}
