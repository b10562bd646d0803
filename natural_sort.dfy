/**
 * `natural_sort_key` and the ordering of page files in `find_pages`.
 *
 * A name is split into alternating runs of non-digits and digits, the way
 * `re.split(r'(\d+)', s)` does; the digit runs become integers, and keys are
 * compared as Python compares lists, element by element.
 */
module NaturalSort {
  import opened Wrappers
  import opened Text

  /** One element of a sort key: a non-digit run kept as text, or a digit run read as a number. */
  datatype Part = S(text: string) | N(value: nat)

  type Key = seq<Part>

  datatype Order = Less | Equal | Greater

  /** Length of the longest prefix of `s` that holds no digit. */
  function NonDigitRun(s: string): (n: nat)
    ensures n <= |s| && (forall i :: 0 <= i < n ==> !IsDigit(s[i])) && (n < |s| ==> IsDigit(s[n]))
  {
    if s == [] || IsDigit(s[0]) then 0 else 1 + NonDigitRun(s[1..])
  }

  /** Length of the longest prefix of `s` that holds only digits. */
  function DigitRun(s: string): (n: nat)
    ensures n <= |s| && (forall i :: 0 <= i < n ==> IsDigit(s[i])) && (n < |s| ==> !IsDigit(s[n]))
  {
    if s == [] || !IsDigit(s[0]) then 0 else 1 + DigitRun(s[1..])
  }

  function Concat(r: seq<string>): string
  {
    if r == [] then [] else r[0] + Concat(r[1..])
  }

  /** The only run length the contract of `NonDigitRun` admits. */
  lemma {:induction false} NonDigitRunIs(s: string, n: nat)
    requires n <= |s| && (forall i :: 0 <= i < n ==> !IsDigit(s[i])) && (n < |s| ==> IsDigit(s[n]))
    ensures NonDigitRun(s) == n
  {
    if n > 0 {
      NonDigitRunIs(s[1..], n - 1);
    }
  }

  /** The only run length the contract of `DigitRun` admits. */
  lemma {:induction false} DigitRunIs(s: string, n: nat)
    requires n <= |s| && (forall i :: 0 <= i < n ==> IsDigit(s[i])) && (n < |s| ==> !IsDigit(s[n]))
    ensures DigitRun(s) == n
  {
    if n > 0 {
      DigitRunIs(s[1..], n - 1);
    }
  }

  /**
   * `re.split(r'(\d+)', s)`: the leading non-digit run (possibly empty),
   * then, as long as digits remain, a maximal digit run followed by the
   * split of what comes after it.
   */
  function Split(s: string): (r: seq<string>)
    ensures r != [] && r[0] == s[..NonDigitRun(s)]
    decreases |s|
  {
    var a := NonDigitRun(s);
    if a == |s| then
      assert s[..a] == s;
      [s]
    else
      var rest := s[a..];
      assert IsDigit(rest[0]);
      var d := DigitRun(rest);
      assert d > 0;
      var r := [s[..a], rest[..d]] + Split(rest[d..]);
      r
  }

  /** Gluing the first two runs back on restores the name. */
  lemma ConcatStep(s: string, a: nat, d: nat, t: seq<string>)
    requires a + d <= |s| && Concat(t) == s[a + d..]
    ensures Concat([s[..a], s[a..a + d]] + t) == s
  {
    var r := [s[..a], s[a..a + d]] + t;
    assert r[1..] == [s[a..a + d]] + t;
    assert r[1..][1..] == t;
    assert s[a..] == s[a..a + d] + s[a + d..];
    assert s == s[..a] + s[a..];
  }

  /** Splitting loses nothing: the runs concatenate back to the name. */
  lemma {:induction false} SplitConcat(s: string)
    ensures Concat(Split(s)) == s
    decreases |s|
  {
    var a := NonDigitRun(s);
    if a < |s| {
      var rest := s[a..];
      var d := DigitRun(rest);
      assert rest[..d] == s[a..a + d] && rest[d..] == s[a + d..];
      SplitConcat(s[a + d..]);
      ConcatStep(s, a, d, Split(s[a + d..]));
    } else {
      assert s[..a] == s;
    }
  }

  /**
   * Non-digit runs at even positions, non-empty digit runs at odd ones, and
   * only the first and last non-digit runs may be empty: an empty one
   * between two digit runs would mean those two were one maximal run.
   */
  ghost predicate Alternating(r: seq<string>)
  {
    && |r| % 2 == 1
    && (forall i :: 0 <= i < |r| && i % 2 == 0 ==> NoDigits(r[i]))
    && (forall i :: 0 <= i < |r| && i % 2 == 1 ==> r[i] != [] && AllDigits(r[i]))
    && (forall i :: 0 < i < |r| - 1 && i % 2 == 0 ==> r[i] != [])
  }

  lemma AlternatingPair(x: string, y: string, t: seq<string>)
    requires NoDigits(x) && y != [] && AllDigits(y)
    requires Alternating(t) && (|t| > 1 ==> t[0] != [])
    ensures Alternating([x, y] + t)
  {
    var r := [x, y] + t;
    forall i | 2 <= i < |r|
      ensures r[i] == t[i - 2] && (i % 2 == (i - 2) % 2)
    {
    }
  }

  lemma {:induction false} SplitRuns(s: string)
    ensures Alternating(Split(s))
    decreases |s|
  {
    var a := NonDigitRun(s);
    if a < |s| {
      var rest := s[a..];
      var d := DigitRun(rest);
      var tail := rest[d..];
      SplitRuns(tail);
      assert |Split(tail)| > 1 ==> Split(tail)[0] != [] by {
        if |Split(tail)| > 1 {
          assert NonDigitRun(tail) < |tail|;
          assert tail != [] && !IsDigit(tail[0]);
        }
      }
      AlternatingPair(s[..a], rest[..d], Split(tail));
    } else {
      assert s[..a] == s;
    }
  }

  function DigitValue(c: char): nat
    requires IsDigit(c)
  {
    c as int - '0' as int
  }

  /** `int(d)` for a string of ASCII digits. */
  function Value(d: string): nat
    requires AllDigits(d)
  {
    if d == [] then 0 else Value(d[..|d| - 1]) * 10 + DigitValue(d[|d| - 1])
  }

  /** `int(text) if text.isdigit() else text` for one piece of the split. */
  function KeyPart(t: string): Part
  {
    if t != [] && AllDigits(t) then N(Value(t)) else S(t)
  }

  /** `natural_sort_key(s)`. */
  function SortKey(s: string): (k: Key)
    ensures |k| == |Split(s)|
  {
    var r := Split(s);
    seq(|r|, i requires 0 <= i < |r| => KeyPart(r[i]))
  }

  /**
   * The key has odd length, holds the non-digit runs of `s` as text at even
   * positions and the values of its maximal digit runs at odd positions.
   */
  lemma SortKeyShape(s: string)
    ensures |SortKey(s)| % 2 == 1
    ensures forall i :: 0 <= i < |SortKey(s)| && i % 2 == 0 ==> SortKey(s)[i] == S(Split(s)[i])
    ensures forall i :: 0 <= i < |SortKey(s)| && i % 2 == 1 ==>
      AllDigits(Split(s)[i]) && SortKey(s)[i] == N(Value(Split(s)[i]))
  {
    var r, k := Split(s), SortKey(s);
    SplitRuns(s);
    forall i | 0 <= i < |k|
      ensures i % 2 == 0 ==> k[i] == S(r[i])
      ensures i % 2 == 1 ==> AllDigits(r[i]) && k[i] == N(Value(r[i]))
    {
      assert k[i] == KeyPart(r[i]);
      if i % 2 == 0 && r[i] != [] {
        assert !IsDigit(r[i][0]);
      }
    }
  }

  /** Python's comparison of two strings: lexicographic by code point. */
  function CompareStrings(a: string, b: string): Order
  {
    if a == [] then (if b == [] then Equal else Less)
    else if b == [] then Greater
    else if a[0] < b[0] then Less
    else if a[0] > b[0] then Greater
    else CompareStrings(a[1..], b[1..])
  }

  function CompareNats(x: nat, y: nat): Order
  {
    if x < y then Less else if x > y then Greater else Equal
  }

  /** Comparing a string with an integer raises `TypeError` in Python: `None`. */
  function CompareParts(a: Part, b: Part): Option<Order>
  {
    match (a, b)
    case (S(x), S(y)) => Some(CompareStrings(x, y))
    case (N(x), N(y)) => Some(CompareNats(x, y))
    case _ => None
  }

  /** Python's list comparison: the first unequal element decides; a proper prefix is smaller. */
  function CompareKeys(a: Key, b: Key): Option<Order>
  {
    if a == [] then Some(if b == [] then Equal else Less)
    else if b == [] then Some(Greater)
    else match CompareParts(a[0], b[0])
      case None => None
      case Some(Equal) => CompareKeys(a[1..], b[1..])
      case Some(o) => Some(o)
  }

  // ---------------------------------------------------------------------------
  // Properties of the key
  // ---------------------------------------------------------------------------

  /** Text parts at the positions of one parity, number parts at the other. */
  ghost predicate Alternates(k: Key, textFirst: bool)
  {
    forall i :: 0 <= i < |k| ==> (k[i].S? <==> ((i % 2 == 0) == textFirst))
  }

  lemma {:induction false} AlternatingKeysCompare(a: Key, b: Key, textFirst: bool)
    requires Alternates(a, textFirst) && Alternates(b, textFirst)
    ensures CompareKeys(a, b).Some?
    decreases |a|
  {
    if a != [] && b != [] {
      assert a[0].S? == b[0].S?;
      assert Alternates(a[1..], !textFirst) by {
        forall i | 0 <= i < |a| - 1 ensures (a[1..][i].S? <==> ((i % 2 == 0) == !textFirst)) {
          assert a[1..][i] == a[i + 1];
        }
      }
      assert Alternates(b[1..], !textFirst) by {
        forall i | 0 <= i < |b| - 1 ensures (b[1..][i].S? <==> ((i % 2 == 0) == !textFirst)) {
          assert b[1..][i] == b[i + 1];
        }
      }
      AlternatingKeysCompare(a[1..], b[1..], !textFirst);
    }
  }

  /** Two natural-sort keys never put a string against a number: comparing them cannot raise. */
  lemma SortKeysComparable(s: string, t: string)
    ensures CompareKeys(SortKey(s), SortKey(t)).Some?
  {
    SortKeyShape(s);
    SortKeyShape(t);
    AlternatingKeysCompare(SortKey(s), SortKey(t), true);
  }

  lemma {:induction false} CompareStringsFacts(a: string, b: string)
    ensures CompareStrings(a, b) == Equal <==> a == b
    ensures CompareStrings(a, b) == Less <==> CompareStrings(b, a) == Greater
  {
    if a != [] && b != [] {
      CompareStringsFacts(a[1..], b[1..]);
      if a[0] == b[0] && a[1..] == b[1..] {
        assert a == [a[0]] + a[1..] && b == [b[0]] + b[1..];
      }
    }
  }

  lemma {:induction false} CompareStringsTransitive(a: string, b: string, c: string)
    requires CompareStrings(a, b) == Less && CompareStrings(b, c) == Less
    ensures CompareStrings(a, c) == Less
  {
    if a != [] && c != [] && a[0] == b[0] == c[0] {
      CompareStringsTransitive(a[1..], b[1..], c[1..]);
    }
  }

  /** Keys compare `Equal` exactly when they are the same key, and `Less` one way exactly when `Greater` the other. */
  lemma {:induction false} CompareKeysFacts(a: Key, b: Key)
    ensures CompareKeys(a, b) == Some(Equal) <==> a == b
    ensures CompareKeys(a, b) == Some(Less) <==> CompareKeys(b, a) == Some(Greater)
  {
    if a != [] && b != [] {
      CompareKeysFacts(a[1..], b[1..]);
      if a[0].S? && b[0].S? {
        CompareStringsFacts(a[0].text, b[0].text);
        CompareStringsFacts(b[0].text, a[0].text);
      }
      assert CompareParts(a[0], b[0]) == Some(Less) <==> CompareParts(b[0], a[0]) == Some(Greater);
      assert CompareParts(a[0], b[0]) == Some(Equal) <==> CompareParts(b[0], a[0]) == Some(Equal);
      assert CompareParts(a[0], b[0]) == Some(Equal) <==> a[0] == b[0];
      if a[0] == b[0] && a[1..] == b[1..] {
        assert a == [a[0]] + a[1..] && b == [b[0]] + b[1..];
      }
    }
  }

  lemma {:induction false} CompareKeysTransitive(a: Key, b: Key, c: Key)
    requires CompareKeys(a, b) == Some(Less) && CompareKeys(b, c) == Some(Less)
    ensures CompareKeys(a, c) == Some(Less)
  {
    if a != [] && c != [] {
      if a[0].S? && b[0].S? && c[0].S? {
        CompareStringsFacts(a[0].text, b[0].text);
        CompareStringsFacts(b[0].text, c[0].text);
        CompareStringsFacts(a[0].text, c[0].text);
        if CompareStrings(a[0].text, b[0].text) == Less && CompareStrings(b[0].text, c[0].text) == Less {
          CompareStringsTransitive(a[0].text, b[0].text, c[0].text);
        }
      }
      if CompareParts(a[0], b[0]) == Some(Equal) && CompareParts(b[0], c[0]) == Some(Equal) {
        CompareKeysTransitive(a[1..], b[1..], c[1..]);
      }
    }
  }

  // ---------------------------------------------------------------------------
  // Ordering by ordinal
  // ---------------------------------------------------------------------------

  lemma SplitAroundDigits(prefix: string, d: string, suffix: string)
    requires NoDigits(prefix) && d != [] && AllDigits(d)
    requires suffix == [] || !IsDigit(suffix[0])
    ensures Split(prefix + d + suffix) == [prefix, d] + Split(suffix)
  {
    var s := prefix + d + suffix;
    assert s[..|prefix|] == prefix;
    NonDigitRunIs(s, |prefix|);
    var rest := s[|prefix|..];
    assert rest == d + suffix;
    assert rest[..|d|] == d;
    DigitRunIs(rest, |d|);
    assert rest[|d|..] == suffix;
  }

  /** One step of `Split`, with the two run lengths named. */
  lemma SplitStep(s: string, a: nat, d: nat)
    requires a < |s| && NonDigitRun(s) == a && DigitRun(s[a..]) == d
    ensures a + d <= |s| && Split(s) == [s[..a], s[a..][..d]] + Split(s[a..][d..])
  {
  }

  // The next three lemmas only restate list shapes, so that the solver sees
  // the splits in `SplitJoin` as plain values.

  lemma GlueFirst(x: string, y: string, t: seq<string>, whole: seq<string>, second: seq<string>)
    requires whole == [x, y] + t && second == [[], y] + t
    ensures whole == [x] + second[1..]
  {
    assert second[1..] == [y] + t;
  }

  lemma GlueRest(x: string, y: string, whole: seq<string>, w: seq<string>, first: seq<string>, q: seq<string>, tail: seq<string>)
    requires whole == [x, y] + w && w == q + tail && first == [x, y] + q
    ensures whole == first + tail
  {
  }

  /**
   * When `p` ends in a non-digit and has a digit at `a`, one step of `Split`
   * cuts `p + r` where it cuts `p`.
   */
  lemma JoinRuns(p: string, r: string, s: string, a: nat, d: nat)
    requires s == p + r && a < |p| && !IsDigit(p[|p| - 1])
    requires NonDigitRun(p) == a && DigitRun(p[a..]) == d
    ensures a + d < |p| && NonDigitRun(s) == a && DigitRun(s[a..]) == d
    ensures !IsDigit(p[a + d..][|p| - a - d - 1])
  {
    var t, u := p[a..], s[a..];
    assert t[|p| - a - 1] == p[|p| - 1];
    forall i | 0 <= i < a
      ensures !IsDigit(s[i])
    {
      assert s[i] == p[i];
    }
    assert s[a] == p[a];
    NonDigitRunIs(s, a);
    forall i | 0 <= i <= d
      ensures u[i] == t[i]
    {
      assert u[i] == s[a + i] == p[a + i];
    }
    DigitRunIs(u, d);
    assert p[a + d..][|p| - a - d - 1] == p[|p| - 1];
  }

  /** The pieces of `p + r` that one step of `Split` cuts, seen in `p`. */
  lemma JoinCuts(p: string, r: string, s: string, a: nat, d: nat)
    requires s == p + r && a + d <= |p|
    ensures s[..a] == p[..a] && s[a..][..d] == p[a..][..d] && s[a..][d..] == p[a + d..] + r
  {
  }

  /** The pieces of `p + r` that one step of `Split` cuts when `p` holds no digit. */
  lemma PlainSlices(p: string, r: string, s: string, d: nat)
    requires s == p + r && d <= |r|
    ensures s[|p|..][..d] == r[0..][..d] && s[|p|..][d..] == r[0..][d..] && s[..|p|] == p
  {
  }

  /** A text with no digit and then a text that starts with a digit. */
  lemma SplitJoinPlain(p: string, r: string)
    requires NoDigits(p) && r != [] && IsDigit(r[0])
    ensures Split(p + r) == Split(p) + Split(r)[1..]
  {
    var s := p + r;
    NonDigitRunIs(s, |p|);
    NonDigitRunIs(r, 0);
    NonDigitRunIs(p, |p|);
    var d := DigitRun(r);
    PlainSlices(p, r, s, d);
    assert r[0..] == r && s[|p|..] == r;
    SplitStep(s, |p|, d);
    SplitStep(r, 0, d);
    assert p[..|p|] == p && r[..0] == [];
    GlueFirst(p, r[0..][..d], Split(r[0..][d..]), Split(s), Split(r));
  }

  /**
   * Splitting text that ends in a non-digit and then text that starts with a
   * digit: the first split is kept whole, and the second goes on from its
   * first digit run.
   */
  lemma {:induction false} SplitJoin(p: string, r: string)
    requires p == [] || !IsDigit(p[|p| - 1])
    requires r != [] && IsDigit(r[0])
    ensures Split(p + r) == Split(p) + Split(r)[1..]
    decreases |p|
  {
    var a := NonDigitRun(p);
    if a == |p| {
      SplitJoinPlain(p, r);
    } else {
      var s := p + r;
      var dp := DigitRun(p[a..]);
      JoinRuns(p, r, s, a, dp);
      JoinCuts(p, r, s, a, dp);
      var q := p[a + dp..];
      SplitStep(p, a, dp);
      SplitStep(s, a, dp);
      SplitJoin(q, r);
      GlueRest(p[..a], p[a..][..dp], Split(s), Split(q + r), Split(p), Split(q), Split(r)[1..]);
    }
  }

  lemma GlueAround(w: seq<string>, sp: seq<string>, sd: seq<string>, d: string, ss: seq<string>)
    requires sd == [[], d] + ss && w == sp + sd[1..]
    ensures w == sp + [d] + ss
  {
    assert sd[1..] == [d] + ss;
  }

  lemma Regroup3(prefix: string, d: string, suffix: string)
    requires d != []
    ensures [] + d + suffix == d + suffix && prefix + d + suffix == prefix + (d + suffix) && (d + suffix)[0] == d[0]
  {
  }

  /** The split of `prefix + d + suffix` is the split of `prefix`, then `d`, then the split of `suffix`. */
  lemma SplitAround(prefix: string, d: string, suffix: string)
    requires prefix == [] || !IsDigit(prefix[|prefix| - 1])
    requires d != [] && AllDigits(d) && (suffix == [] || !IsDigit(suffix[0]))
    ensures Split(prefix + d + suffix) == Split(prefix) + [d] + Split(suffix)
  {
    var r := d + suffix;
    Regroup3(prefix, d, suffix);
    SplitJoin(prefix, r);
    SplitAroundDigits([], d, suffix);
    GlueAround(Split(prefix + r), Split(prefix), Split(r), d, Split(suffix));
  }

  /** The key of `prefix + d + suffix` holds the key pieces of `prefix`, then the number `d`. */
  lemma KeyAround(prefix: string, d: string, suffix: string)
    requires prefix == [] || !IsDigit(prefix[|prefix| - 1])
    requires d != [] && AllDigits(d) && (suffix == [] || !IsDigit(suffix[0]))
    ensures var k, m := SortKey(prefix + d + suffix), |Split(prefix)|;
      m < |k| && k[m] == N(Value(d)) && forall i :: 0 <= i < m ==> k[i] == KeyPart(Split(prefix)[i])
  {
    var x := prefix + d + suffix;
    var m := |Split(prefix)|;
    SplitAround(prefix, d, suffix);
    assert Split(x)[m] == d;
    assert forall i :: 0 <= i < m ==> Split(x)[i] == Split(prefix)[i];
  }

  /** Keys that agree up to two numbers at the same position compare as those numbers. */
  lemma {:induction false} SameThenSmallerNumber(k1: Key, k2: Key, m: nat, a: nat, b: nat)
    requires m < |k1| && m < |k2| && k1[m] == N(a) && k2[m] == N(b) && a < b
    requires forall i :: 0 <= i < m ==> k1[i] == k2[i]
    ensures CompareKeys(k1, k2) == Some(Less)
  {
    if m > 0 {
      assert CompareParts(k1[0], k2[0]) == Some(Equal) by {
        if k1[0].S? {
          CompareStringsFacts(k1[0].text, k1[0].text);
        }
      }
      SameThenSmallerNumber(k1[1..], k2[1..], m - 1, a, b);
    }
  }

  /**
   * Names that differ only in one numeric ordinal are ordered by that
   * ordinal, wherever it sits in the name: `vol2-page-9.xhtml` before
   * `vol2-page-10.xhtml`, not after it.
   */
  lemma OrdinalOrder(prefix: string, d1: string, d2: string, suffix: string)
    requires suffix == [] || !IsDigit(suffix[0])
    requires prefix == [] || !IsDigit(prefix[|prefix| - 1])
    requires d1 != [] && AllDigits(d1) && d2 != [] && AllDigits(d2)
    requires Value(d1) < Value(d2)
    ensures CompareKeys(SortKey(prefix + d1 + suffix), SortKey(prefix + d2 + suffix)) == Some(Less)
  {
    KeyAround(prefix, d1, suffix);
    KeyAround(prefix, d2, suffix);
    SameThenSmallerNumber(SortKey(prefix + d1 + suffix), SortKey(prefix + d2 + suffix), |Split(prefix)|, Value(d1), Value(d2));
  }

  /** The key of `prefix + d + suffix` opens with the text `prefix` and the number `d`. */
  lemma OrdinalKey(prefix: string, d: string, suffix: string)
    requires suffix == [] || !IsDigit(suffix[0])
    requires NoDigits(prefix) && d != [] && AllDigits(d)
    ensures var k := SortKey(prefix + d + suffix); |k| >= 2 && k[0] == S(prefix) && k[1] == N(Value(d))
  {
    SplitAroundDigits(prefix, d, suffix);
    assert KeyPart(prefix) == S(prefix) by {
      if prefix != [] { assert IsDigit(prefix[0]) || !IsDigit(prefix[0]); }
    }
  }

  lemma PageNineBeforePageTen()
    ensures CompareKeys(SortKey("page-9.xhtml"), SortKey("page-10.xhtml")) == Some(Less)
  {
    assert "page-9.xhtml" == "page-" + "9" + ".xhtml";
    assert "page-10.xhtml" == "page-" + "10" + ".xhtml";
    OrdinalOrder("page-", "9", "10", ".xhtml");
  }

  // ---------------------------------------------------------------------------
  // sorted(..., key=...): a stable sort by a key function
  // ---------------------------------------------------------------------------

  /** Python's `<` on the keys of two elements. */
  predicate Precedes<T>(key: T -> Key, a: T, b: T)
  {
    CompareKeys(key(a), key(b)) == Some(Less)
  }

  /** Comparing any two keys the key function produces cannot raise. */
  ghost predicate TotalKeys<T(!new)>(key: T -> Key)
  {
    forall a, b :: CompareKeys(key(a), key(b)).Some?
  }

  /** No element comes after one it sorts strictly before. */
  ghost predicate SortedBy<T>(key: T -> Key, r: seq<T>)
  {
    forall i, j :: 0 <= i < j < |r| ==> !Precedes(key, r[j], r[i])
  }

  /** The elements of `r` whose key is `k`, in their order in `r`. */
  function WithKey<T>(key: T -> Key, r: seq<T>, k: Key): seq<T>
  {
    if r == [] then [] else (if key(r[0]) == k then [r[0]] else []) + WithKey(key, r[1..], k)
  }

  /** Places `x` after every element of the sorted `r` that does not sort strictly after it. */
  function Insert<T(==)>(key: T -> Key, r: seq<T>, x: T): (r': seq<T>)
    ensures multiset(r') == multiset(r) + multiset{x}
  {
    if r == [] then [x]
    else if Precedes(key, x, r[0]) then [x] + r
    else
      assert r == [r[0]] + r[1..];
      [r[0]] + Insert(key, r[1..], x)
  }

  /** `sorted(s, key=key)`, as a stable insertion sort. */
  function SortBy<T(==)>(key: T -> Key, s: seq<T>): (r: seq<T>)
    ensures multiset(r) == multiset(s)
  {
    if s == [] then []
    else
      assert s == s[..|s| - 1] + [s[|s| - 1]];
      Insert(key, SortBy(key, s[..|s| - 1]), s[|s| - 1])
  }

  lemma PrecedesAsymmetric<T>(key: T -> Key, a: T, b: T)
    requires Precedes(key, a, b)
    ensures !Precedes(key, b, a) && key(a) != key(b)
  {
    CompareKeysFacts(key(a), key(b));
  }

  /** If `a` sorts before `b` and `c` does not sort before `b`, then `a` sorts before `c`. */
  lemma PrecedesThenNotAfter<T(!new)>(key: T -> Key, a: T, b: T, c: T)
    requires TotalKeys(key)
    requires Precedes(key, a, b) && !Precedes(key, c, b)
    ensures Precedes(key, a, c)
  {
    var ka, kb, kc := key(a), key(b), key(c);
    assert CompareKeys(kb, kc).Some?;
    CompareKeysFacts(kb, kc);
    CompareKeysFacts(kc, kb);
    if CompareKeys(kb, kc) == Some(Less) {
      CompareKeysTransitive(ka, kb, kc);
    } else {
      var o := CompareKeys(kb, kc).value;
      assert o.Equal? || o.Less? || o.Greater?;
      assert kb == kc;
    }
  }

  /** Every element of the sorted `r` after its head sorts after anything that sorts before the head. */
  lemma PrecedesAll<T(!new)>(key: T -> Key, r: seq<T>, x: T)
    requires TotalKeys(key) && SortedBy(key, r) && r != [] && Precedes(key, x, r[0])
    ensures forall j :: 0 <= j < |r| ==> Precedes(key, x, r[j])
  {
    forall j | 0 < j < |r| ensures Precedes(key, x, r[j]) {
      PrecedesThenNotAfter(key, x, r[0], r[j]);
    }
  }

  lemma {:induction false} InsertSorted<T(!new)>(key: T -> Key, r: seq<T>, x: T)
    requires TotalKeys(key) && SortedBy(key, r)
    ensures SortedBy(key, Insert(key, r, x))
  {
    if r != [] {
      if Precedes(key, x, r[0]) {
        PrecedesAll(key, r, x);
        forall j | 0 <= j < |r| ensures !Precedes(key, r[j], x) {
          PrecedesAsymmetric(key, x, r[j]);
        }
        var r' := [x] + r;
        assert forall j :: 0 < j < |r'| ==> r'[j] == r[j - 1];
      } else {
        var t := Insert(key, r[1..], x);
        InsertSorted(key, r[1..], x);
        forall j | 0 <= j < |t| ensures !Precedes(key, t[j], r[0]) {
          assert t[j] in multiset(t);
          if t[j] != x {
            assert t[j] in multiset(r[1..]);
            var m :| 0 <= m < |r[1..]| && r[1..][m] == t[j];
            assert r[m + 1] == t[j];
          }
        }
        var r' := [r[0]] + t;
        assert forall j :: 0 < j < |r'| ==> r'[j] == t[j - 1];
      }
    }
  }

  lemma {:induction false} SortBySorted<T(!new)>(key: T -> Key, s: seq<T>)
    requires TotalKeys(key)
    ensures SortedBy(key, SortBy(key, s))
  {
    if s != [] {
      SortBySorted(key, s[..|s| - 1]);
      InsertSorted(key, SortBy(key, s[..|s| - 1]), s[|s| - 1]);
    }
  }

  lemma {:induction false} WithKeyAppend<T>(key: T -> Key, a: seq<T>, b: seq<T>, k: Key)
    ensures WithKey(key, a + b, k) == WithKey(key, a, k) + WithKey(key, b, k)
  {
    if a != [] {
      assert (a + b)[1..] == a[1..] + b;
      WithKeyAppend(key, a[1..], b, k);
    } else {
      assert a + b == b;
    }
  }

  lemma {:induction false} WithKeyNone<T>(key: T -> Key, r: seq<T>, k: Key)
    requires forall j :: 0 <= j < |r| ==> key(r[j]) != k
    ensures WithKey(key, r, k) == []
  {
    if r != [] {
      WithKeyNone(key, r[1..], k);
    }
  }

  lemma WithKeyCons<T>(key: T -> Key, x: T, r: seq<T>, k: Key)
    ensures WithKey(key, [x] + r, k) == (if key(x) == k then [x] else []) + WithKey(key, r, k)
  {
    assert ([x] + r)[1..] == r;
  }

  /** Inserting into a sorted run puts `x` after every element with the same key. */
  lemma {:induction false} InsertStable<T(!new)>(key: T -> Key, r: seq<T>, x: T, k: Key)
    requires TotalKeys(key) && SortedBy(key, r)
    ensures WithKey(key, Insert(key, r, x), k) == WithKey(key, r, k) + (if key(x) == k then [x] else [])
  {
    if r == [] {
      WithKeySingle(key, x, k);
    } else if Precedes(key, x, r[0]) {
      InsertFrontStable(key, r, x, k);
    } else {
      var t := Insert(key, r[1..], x);
      var xs := if key(x) == k then [x] else [];
      var hs := if key(r[0]) == k then [r[0]] else [];
      assert Insert(key, r, x) == [r[0]] + t;
      calc {
        WithKey(key, [r[0]] + t, k);
        { WithKeyCons(key, r[0], t, k); }
        hs + WithKey(key, t, k);
        { SortedTail(key, r); InsertStable(key, r[1..], x, k); }
        hs + (WithKey(key, r[1..], k) + xs);
        { Reassociate(hs, WithKey(key, r[1..], k), xs); }
        hs + WithKey(key, r[1..], k) + xs;
        { assert r == [r[0]] + r[1..]; WithKeyCons(key, r[0], r[1..], k); }
        WithKey(key, r, k) + xs;
      }
    }
  }

  /** Inserting in front of a sorted run adds `x` last among the elements with its key: there are no others. */
  lemma InsertFrontStable<T(!new)>(key: T -> Key, r: seq<T>, x: T, k: Key)
    requires TotalKeys(key) && SortedBy(key, r) && r != [] && Precedes(key, x, r[0])
    ensures WithKey(key, Insert(key, r, x), k) == WithKey(key, r, k) + (if key(x) == k then [x] else [])
  {
    assert Insert(key, r, x) == [x] + r;
    WithKeyCons(key, x, r, k);
    if key(x) == k {
      PrecedesAll(key, r, x);
      forall j | 0 <= j < |r| ensures key(r[j]) != k {
        PrecedesAsymmetric(key, x, r[j]);
      }
      WithKeyNone(key, r, k);
    }
  }

  lemma SortedTail<T>(key: T -> Key, r: seq<T>)
    requires SortedBy(key, r) && r != []
    ensures SortedBy(key, r[1..])
  {
    var t := r[1..];
    forall i, j | 0 <= i < j < |t|
      ensures !Precedes(key, t[j], t[i])
    {
      assert t[i] == r[i + 1] && t[j] == r[j + 1];
    }
  }

  // Only splits the proof of `InsertStable` for the solver.
  lemma Reassociate<T>(a: seq<T>, b: seq<T>, c: seq<T>)
    ensures a + (b + c) == a + b + c
  {
  }

  lemma WithKeySingle<T>(key: T -> Key, x: T, k: Key)
    ensures WithKey(key, [x], k) == if key(x) == k then [x] else []
  {
    assert [x][1..] == [];
  }

  lemma {:induction false} SortByStable<T(!new)>(key: T -> Key, s: seq<T>, k: Key)
    requires TotalKeys(key)
    ensures WithKey(key, SortBy(key, s), k) == WithKey(key, s, k)
  {
    if s != [] {
      var init, x := s[..|s| - 1], s[|s| - 1];
      var sorted := SortBy(key, init);
      SortBySorted(key, init);
      calc {
        WithKey(key, SortBy(key, s), k);
        WithKey(key, Insert(key, sorted, x), k);
        { InsertStable(key, sorted, x, k); }
        WithKey(key, sorted, k) + (if key(x) == k then [x] else []);
        { SortByStable(key, init, k); WithKeySingle(key, x, k); }
        WithKey(key, init, k) + WithKey(key, [x], k);
        { WithKeyAppend(key, init, [x], k); }
        WithKey(key, init + [x], k);
        { assert s == init + [x]; }
        WithKey(key, s, k);
      }
    }
  }

  // ---------------------------------------------------------------------------
  // find_pages: sorting page files by the key of their names
  // ---------------------------------------------------------------------------

  /** The key `find_pages` sorts a page file by: that of its file name. */
  function PageKey(path: string): Key
  {
    SortKey(PathName(path))
  }

  /** `sorted(pages, key=lambda p: natural_sort_key(p.name))`. */
  function FindPagesOrder(paths: seq<string>): seq<string>
  {
    SortBy(PageKey, paths)
  }

  lemma PageKeysTotal()
    ensures TotalKeys(PageKey)
  {
    forall a, b ensures CompareKeys(PageKey(a), PageKey(b)).Some? {
      SortKeysComparable(PathName(a), PathName(b));
    }
  }

  /**
   * `find_pages` returns a permutation of the page files it found, in
   * non-decreasing natural order of their names, and files whose names have
   * equal keys (`page-1.xhtml` in two directories, or `page-01.xhtml` beside
   * `page-1.xhtml`) keep their discovery order.
   */
  lemma FindPagesOrderCorrect(paths: seq<string>)
    ensures multiset(FindPagesOrder(paths)) == multiset(paths)
    ensures SortedBy(PageKey, FindPagesOrder(paths))
    ensures forall k :: WithKey(PageKey, FindPagesOrder(paths), k) == WithKey(PageKey, paths, k)
  {
    PageKeysTotal();
    SortBySorted(PageKey, paths);
    forall k ensures WithKey(PageKey, FindPagesOrder(paths), k) == WithKey(PageKey, paths, k) {
      SortByStable(PageKey, paths, k);
    }
  }
}
