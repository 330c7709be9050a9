/**
 * The handful of Python `str` operations the modelled code relies on, each defined
 * once and characterised by its contract: `in`, `find`, `split`, `join`, `strip`,
 * `rstrip`, `endswith`, `replace`, `rfind` and ASCII `lower`.
 */
module Strings {
  import opened Wrappers

  // ---------------------------------------------------------------------------
  // Occurrences: `x in s` and `s.find(x)`
  // ---------------------------------------------------------------------------

  /** `x` occurs in `s` starting at index `i`. */
  predicate OccursAt(s: string, x: string, i: nat)
  {
    i + |x| <= |s| && s[i..i + |x|] == x
  }

  /** Python's `x in s` on strings. */
  predicate Contains(s: string, x: string)
  {
    exists i: nat | i <= |s| :: OccursAt(s, x, i)
  }

  /** Python's `s.startswith(x)`. */
  predicate StartsWith(s: string, x: string)
  {
    |x| <= |s| && s[..|x|] == x
  }

  /** Python's `s.endswith(x)`. */
  predicate EndsWith(s: string, x: string)
  {
    |x| <= |s| && s[|s| - |x|..] == x
  }

  /** No character of `s` is `c`. */
  predicate Lacks(s: string, c: char)
  {
    forall i :: 0 <= i < |s| ==> s[i] != c
  }

  lemma OccursShift(s: string, x: string, j: nat)
    requires |s| > 0
    ensures OccursAt(s[1..], x, j) <==> OccursAt(s, x, j + 1)
  {
    if j + 1 + |x| <= |s| {
      assert s[1..][j..j + |x|] == s[j + 1..j + 1 + |x|];
    }
  }

  /** Dropping a first character at which `x` does not start keeps `x in s` as it was. */
  lemma ContainsShift(s: string, x: string)
    requires |s| > 0 && !OccursAt(s, x, 0)
    ensures Contains(s, x) <==> Contains(s[1..], x)
  {
    if Contains(s[1..], x) {
      var j: nat :| j <= |s[1..]| && OccursAt(s[1..], x, j);
      OccursShift(s, x, j);
    }
    if Contains(s, x) {
      var i: nat :| i <= |s| && OccursAt(s, x, i);
      OccursShift(s, x, i - 1);
    }
  }

  /** A slice of a slice is a slice. */
  lemma SliceOfSlice(s: string, lo: nat, hi: nat, a: nat, b: nat)
    requires lo <= hi <= |s| && a <= b <= hi - lo
    ensures s[lo..hi][a..b] == s[lo + a..lo + b]
  {
    assert forall k :: 0 <= k < b - a ==> s[lo..hi][a..b][k] == s[lo + a + k];
  }

  /** An occurrence inside a slice is an occurrence in the whole string. */
  lemma OccursInSlice(s: string, x: string, lo: nat, hi: nat, j: nat)
    requires lo <= hi <= |s|
    ensures OccursAt(s[lo..hi], x, j) ==> OccursAt(s, x, lo + j)
  {
    if j + |x| <= hi - lo {
      SliceOfSlice(s, lo, hi, j, j + |x|);
    }
  }

  /** An occurrence in a suffix is an occurrence in the whole string, and conversely. */
  lemma OccursInSuffix(s: string, x: string, lo: nat, j: nat)
    requires lo <= |s|
    ensures OccursAt(s[lo..], x, j) <==> OccursAt(s, x, lo + j)
  {
    if lo + j + |x| <= |s| {
      assert s[lo..][j..j + |x|] == s[lo + j..lo + j + |x|];
    }
  }

  /** A mismatch at one position rules out an occurrence. */
  lemma MismatchAt(s: string, x: string, j: nat, i: nat)
    requires i < |x|
    requires j + i < |s| ==> s[j + i] != x[i]
    ensures !OccursAt(s, x, j)
  {
    if j + |x| <= |s| {
      assert s[j..j + |x|][i] == s[j + i];
    }
  }

  /** A character that `s` lacks rules out `x in s` for every `x` holding it. */
  lemma LacksExcludes(s: string, x: string, i: nat)
    requires i < |x| && Lacks(s, x[i])
    ensures !Contains(s, x)
  {
    forall j: nat | j <= |s|
      ensures !OccursAt(s, x, j)
    {
      MismatchAt(s, x, j, i);
    }
  }

  /** An occurrence inside an occurrence is an occurrence. */
  lemma ContainsTransitive(s: string, u: string, x: string)
    requires Contains(s, u) && Contains(u, x)
    ensures Contains(s, x)
  {
    var i: nat :| i <= |s| && OccursAt(s, u, i);
    var j: nat :| j <= |u| && OccursAt(u, x, j);
    SliceOfSlice(s, i, i + |u|, j, j + |x|);
    assert OccursAt(s, x, i + j);
  }

  /** An occurrence in a prefix is an occurrence in the whole string. */
  lemma ContainsExtend(a: string, b: string, x: string)
    ensures Contains(a, x) ==> Contains(a + b, x)
  {
    if Contains(a, x) {
      var i: nat :| i <= |a| && OccursAt(a, x, i);
      assert (a + b)[i..i + |x|] == a[i..i + |x|];
      assert OccursAt(a + b, x, i);
    }
  }

  /** An occurrence in a suffix is an occurrence in the whole string. */
  lemma ContainsPrepend(a: string, b: string, x: string)
    ensures Contains(b, x) ==> Contains(a + b, x)
  {
    if Contains(b, x) {
      var i: nat :| i <= |b| && OccursAt(b, x, i);
      assert (a + b)[|a| + i..|a| + i + |x|] == b[i..i + |x|];
      assert OccursAt(a + b, x, |a| + i);
    }
  }

  /** A character missing from both parts is missing from their concatenation. */
  lemma LacksConcat(a: string, b: string, c: char)
    ensures Lacks(a, c) && Lacks(b, c) ==> Lacks(a + b, c)
  {
  }

  /** An occurrence of `x` starts with an occurrence of each prefix of `x`. */
  lemma OccursPrefix(s: string, x: string, y: string, j: nat)
    requires StartsWith(x, y)
    ensures OccursAt(s, x, j) ==> OccursAt(s, y, j)
  {
    if OccursAt(s, x, j) {
      SliceOfSlice(s, j, j + |x|, 0, |y|);
    }
  }

  /** An occurrence that ends inside the prefix `a` of `a + b` is an occurrence in `a`. */
  lemma OccursInPrefix(a: string, b: string, x: string, j: nat)
    requires j + |x| <= |a|
    ensures OccursAt(a + b, x, j) <==> OccursAt(a, x, j)
  {
    assert (a + b)[j..j + |x|] == a[j..j + |x|];
  }

  /** Python's `s.find(x)`: the index of the first occurrence of `x` in `s`, if any. */
  function IndexOf(s: string, x: string): (r: Option<nat>)
    ensures r.Some? <==> Contains(s, x)
    ensures r.Some? ==> OccursAt(s, x, r.value)
    ensures r.Some? ==> forall j: nat :: j < r.value ==> !OccursAt(s, x, j)
    decreases |s|
  {
    if |s| < |x| then
      None
    else if s[..|x|] == x then
      assert OccursAt(s, x, 0);
      Some(0)
    else
      assert |s| > 0;
      ContainsShift(s, x);
      match IndexOf(s[1..], x)
      case None => None
      case Some(k) =>
        OccursShift(s, x, k);
        assert forall j: nat :: 0 < j < k + 1 ==> !OccursAt(s, x, j) by {
          forall j: nat | 0 < j < k + 1
            ensures !OccursAt(s, x, j)
          {
            OccursShift(s, x, j - 1);
          }
        }
        Some(k + 1)
  }

  /** The first occurrence is the one `IndexOf` reports. */
  lemma IndexOfFirst(s: string, x: string, i: nat)
    requires OccursAt(s, x, i)
    requires forall j: nat :: j < i ==> !OccursAt(s, x, j)
    ensures IndexOf(s, x) == Some(i)
  {
    assert Contains(s, x);
  }

  // ---------------------------------------------------------------------------
  // `sep.join(parts)` and `s.split(sep)`
  // ---------------------------------------------------------------------------

  /** Python's `sep.join(parts)`. */
  function Join(parts: seq<string>, sep: string): string
  {
    if |parts| == 0 then ""
    else if |parts| == 1 then parts[0]
    else parts[0] + sep + Join(parts[1..], sep)
  }

  /**
   * Python's `s.split(sep)` for a non-empty separator: the pieces between the
   * occurrences of `sep` found left to right. The pieces never contain `sep`, and
   * joining them with `sep` gives `s` back.
   */
  function Split(s: string, sep: string): (parts: seq<string>)
    requires |sep| > 0
    ensures |parts| >= 1
    ensures forall k :: 0 <= k < |parts| ==> !Contains(parts[k], sep)
    ensures Join(parts, sep) == s
    decreases |s|
  {
    match IndexOf(s, sep)
    case None => [s]
    case Some(i) =>
      assert !Contains(s[..i], sep) by {
        forall j: nat | j <= i
          ensures !OccursAt(s[..i], sep, j)
        {
          if j + |sep| <= i {
            SliceOfSlice(s, 0, i, j, j + |sep|);
            assert !OccursAt(s, sep, j);
          }
        }
      }
      var rest := Split(s[i + |sep|..], sep);
      assert s == s[..i] + sep + s[i + |sep|..] by {
        assert s[i..i + |sep|] == sep;
        assert s == s[..i] + s[i..i + |sep|] + s[i + |sep|..];
      }
      [s[..i]] + rest
  }

  /** The pieces of a split at the first occurrence of the separator. */
  lemma SplitAt(s: string, sep: string, i: nat)
    requires |sep| > 0 && IndexOf(s, sep) == Some(i)
    ensures Split(s, sep) == [s[..i]] + Split(s[i + |sep|..], sep)
  {
  }

  /** A string without the separator is its own single piece. */
  lemma SplitNone(s: string, sep: string)
    requires |sep| > 0 && !Contains(s, sep)
    ensures Split(s, sep) == [s]
  {
  }

  /** A string lacking the character `c` does not contain the one-character string `[c]`. */
  lemma LacksSingle(p: string, c: char)
    requires c !in p
    ensures !Contains(p, [c])
  {
    assert Lacks(p, c);
    LacksExcludes(p, [c], 0);
  }

  /**
   * For a one-character separator, `split` is the inverse of `join` on pieces that do
   * not contain the separator: such a decomposition of a string is unique.
   */
  lemma {:induction false} SplitJoinChar(parts: seq<string>, c: char)
    requires |parts| >= 1
    requires forall k :: 0 <= k < |parts| ==> c !in parts[k]
    ensures Split(Join(parts, [c]), [c]) == parts
    decreases |parts|
  {
    var p := parts[0];
    if |parts| == 1 {
      LacksSingle(p, c);
    } else {
      var rest := Join(parts[1..], [c]);
      var s := p + [c] + rest;
      assert Join(parts, [c]) == s;
      assert OccursAt(s, [c], |p|) by { assert s[|p|..|p| + 1] == [c]; }
      forall j: nat | j < |p|
        ensures !OccursAt(s, [c], j)
      {
        assert s[j] == p[j];
        MismatchAt(s, [c], j, 0);
      }
      IndexOfFirst(s, [c], |p|);
      assert s[..|p|] == p;
      assert s[|p| + 1..] == rest;
      SplitJoinChar(parts[1..], c);
    }
  }

  /** Without the one-character string `[c]`, a string has no character `c`. */
  lemma NoCharWithout(p: string, c: char)
    ensures !Contains(p, [c]) ==> c !in p
  {
    if c in p {
      var i :| 0 <= i < |p| && p[i] == c;
      assert p[i..i + 1] == [c];
      assert OccursAt(p, [c], i);
    }
  }

  /** Joining two non-empty lists puts one separator between their joins. */
  lemma {:induction false} JoinConcat(ps: seq<string>, qs: seq<string>, sep: string)
    requires |ps| >= 1 && |qs| >= 1
    ensures Join(ps + qs, sep) == Join(ps, sep) + sep + Join(qs, sep)
    decreases |ps|
  {
    var all := ps + qs;
    if |ps| == 1 {
      assert all[1..] == qs;
    } else {
      assert all[1..] == ps[1..] + qs;
      JoinConcat(ps[1..], qs, sep);
    }
  }

  /** The join of a non-empty list starts with its first element. */
  lemma JoinStartsWith(ps: seq<string>, sep: string)
    requires |ps| >= 1
    ensures StartsWith(Join(ps, sep), ps[0])
  {
    if |ps| > 1 {
      assert Join(ps, sep)[..|ps[0]|] == ps[0];
    }
  }

  /**
   * Splitting on a one-character separator cuts at every separator: the pieces of
   * `a + [c] + b` are those of `a` followed by those of `b`.
   */
  lemma SplitConcatChar(a: string, b: string, c: char)
    ensures Split(a + [c] + b, [c]) == Split(a, [c]) + Split(b, [c])
  {
    var ps, qs := Split(a, [c]), Split(b, [c]);
    forall k | 0 <= k < |ps + qs|
      ensures c !in (ps + qs)[k]
    {
      NoCharWithout((ps + qs)[k], c);
    }
    JoinConcat(ps, qs, [c]);
    SplitJoinChar(ps + qs, c);
  }

  // ---------------------------------------------------------------------------
  // `strip`, `lstrip`, `rstrip`
  // ---------------------------------------------------------------------------

  /**
   * The characters Python's `str.isspace` accepts, which `str.strip()` with no
   * argument removes from both ends.
   */
  const Whitespace: set<char> := {
    '\t', '\n', '\U{0b}', '\U{0c}', '\r', '\U{1c}', '\U{1d}', '\U{1e}', '\U{1f}', ' ',
    '\U{85}', '\U{a0}', '\U{1680}',
    '\U{2000}', '\U{2001}', '\U{2002}', '\U{2003}', '\U{2004}', '\U{2005}', '\U{2006}',
    '\U{2007}', '\U{2008}', '\U{2009}', '\U{200a}',
    '\U{2028}', '\U{2029}', '\U{202f}', '\U{205f}', '\U{3000}'
  }

  /** Every character of `s` is one of `chars`. */
  predicate AllIn(s: string, chars: set<char>)
  {
    forall k :: 0 <= k < |s| ==> s[k] in chars
  }

  lemma AllInCons(c: char, t: string, chars: set<char>)
    requires c in chars && AllIn(t, chars)
    ensures AllIn([c] + t, chars)
  {
    forall k | 0 <= k < |[c] + t|
      ensures ([c] + t)[k] in chars
    {
      if k > 0 {
        assert ([c] + t)[k] == t[k - 1];
      }
    }
  }

  lemma AllInSnoc(t: string, c: char, chars: set<char>)
    requires c in chars && AllIn(t, chars)
    ensures AllIn(t + [c], chars)
  {
    forall k | 0 <= k < |t + [c]|
      ensures (t + [c])[k] in chars
    {
      if k < |t| {
        assert (t + [c])[k] == t[k];
      }
    }
  }

  /** Cutting `s` at `n` after splitting off its first character. */
  lemma ConsSlices(s: string, n: nat)
    requires 0 < n <= |s|
    ensures s[..n] == [s[0]] + s[1..][..n - 1]
    ensures s[n..] == s[1..][n - 1..]
  {
    assert s[..n] == [s[0]] + s[1..n];
  }

  /** Cutting `s` at `n` after splitting off its last character. */
  lemma SnocSlices(s: string, n: nat)
    requires n < |s|
    ensures s[n..] == s[..|s| - 1][n..] + [s[|s| - 1]]
    ensures s[..n] == s[..|s| - 1][..n]
  {
    assert s[n..] == s[n..|s| - 1] + [s[|s| - 1]];
  }

  /** Python's `s.lstrip(chars)`: the longest suffix of `s` not starting with one of `chars`. */
  function LStrip(s: string, chars: set<char>): (r: string)
    ensures |r| <= |s| && r == s[|s| - |r|..]
    ensures AllIn(s[..|s| - |r|], chars)
    ensures r == [] || r[0] !in chars
    decreases |s|
  {
    if |s| > 0 && s[0] in chars then
      var r := LStrip(s[1..], chars);
      ConsSlices(s, |s| - |r|);
      AllInCons(s[0], s[1..][..|s[1..]| - |r|], chars);
      r
    else
      s
  }

  /** Python's `s.rstrip(chars)`: the longest prefix of `s` not ending with one of `chars`. */
  function RStrip(s: string, chars: set<char>): (r: string)
    ensures |r| <= |s| && r == s[..|r|]
    ensures AllIn(s[|r|..], chars)
    ensures r == [] || r[|r| - 1] !in chars
    decreases |s|
  {
    if |s| > 0 && s[|s| - 1] in chars then
      var r := RStrip(s[..|s| - 1], chars);
      SnocSlices(s, |r|);
      AllInSnoc(s[..|s| - 1][|r|..], s[|s| - 1], chars);
      r
    else
      s
  }

  /** Neither end of `s` is one of `chars`. */
  predicate StrippedOf(s: string, chars: set<char>)
  {
    s == [] || (s[0] !in chars && s[|s| - 1] !in chars)
  }

  /** `r` sits in `s` at `i` with nothing but `chars` on either side. */
  predicate SurroundedBy(s: string, r: string, i: nat, chars: set<char>)
  {
    i + |r| <= |s| && s[i..i + |r|] == r && AllIn(s[..i], chars) && AllIn(s[i + |r|..], chars)
  }

  /**
   * Python's `s.strip(chars)`: `s` with every leading and trailing character from
   * `chars` removed. The result is a slice of `s`, and what was cut away on either
   * side consists of `chars` only.
   */
  function Strip(s: string, chars: set<char>): (r: string)
    ensures StrippedOf(r, chars)
  {
    RStrip(LStrip(s, chars), chars)
  }

  /** A slice has no character its string lacks. */
  lemma SliceKeepsMissing(s: string, r: string, i: nat, c: char)
    requires i + |r| <= |s| && s[i..i + |r|] == r
    ensures c !in s ==> c !in r
  {
    forall j | 0 <= j < |r|
      ensures r[j] == s[i + j]
    {
      assert s[i..i + |r|][j] == s[i + j];
    }
  }

  /** What `Strip` keeps is a slice of `s` with nothing but `chars` cut on either side. */
  lemma StripSurrounded(s: string, chars: set<char>)
    ensures SurroundedBy(s, Strip(s, chars), |s| - |LStrip(s, chars)|, chars)
  {
    var l := LStrip(s, chars);
    StripWitness(s, l, RStrip(l, chars), chars);
  }

  /** A right-stripped left-stripped text sits in the original, surrounded by `chars`. */
  lemma StripWitness(s: string, l: string, r: string, chars: set<char>)
    requires |l| <= |s| && l == s[|s| - |l|..] && AllIn(s[..|s| - |l|], chars)
    requires |r| <= |l| && r == l[..|r|] && AllIn(l[|r|..], chars)
    ensures SurroundedBy(s, r, |s| - |l|, chars)
  {
    var i := |s| - |l|;
    assert s[i..i + |r|] == r;
    assert s[i + |r|..] == l[|r|..];
  }

  /** `s.strip()`: surrounding whitespace removed. */
  function Trim(s: string): (r: string)
    ensures StrippedOf(r, Whitespace)
  {
    Strip(s, Whitespace)
  }

  lemma {:induction false} LStripSkips(a: string, t: string, chars: set<char>)
    requires AllIn(a, chars)
    requires t == [] || t[0] !in chars
    ensures LStrip(a + t, chars) == t
    decreases |a|
  {
    if a == [] {
      assert a + t == t;
    } else {
      assert (a + t)[0] == a[0];
      assert (a + t)[1..] == a[1..] + t;
      LStripSkips(a[1..], t, chars);
    }
  }

  lemma {:induction false} RStripSkips(t: string, b: string, chars: set<char>)
    requires AllIn(b, chars)
    requires t == [] || t[|t| - 1] !in chars
    ensures RStrip(t + b, chars) == t
    decreases |b|
  {
    if b == [] {
      assert t + b == t;
    } else {
      var s := t + b;
      assert s[|s| - 1] == b[|b| - 1];
      assert s[..|s| - 1] == t + b[..|b| - 1];
      RStripSkips(t, b[..|b| - 1], chars);
    }
  }

  /**
   * `strip` is determined by its contract: whatever sits between a run of `chars`
   * on the left and one on the right, and neither starts nor ends with one of them,
   * is what `strip` returns.
   */
  lemma StripUnique(a: string, m: string, b: string, chars: set<char>)
    requires AllIn(a, chars) && AllIn(b, chars)
    requires StrippedOf(m, chars)
    ensures Strip(a + m + b, chars) == m
  {
    if m == [] {
      assert a + m + b == (a + b) + [];
      assert AllIn(a + b, chars);
      LStripSkips(a + b, [], chars);
    } else {
      assert a + m + b == a + (m + b);
      LStripSkips(a, m + b, chars);
      RStripSkips(m, b, chars);
    }
  }

  // ---------------------------------------------------------------------------
  // `s.replace(old, new)`
  // ---------------------------------------------------------------------------

  /**
   * Python's `s.replace(p, r)` for a non-empty `p`: scanning left to right, every
   * occurrence of `p` that does not overlap an earlier replaced one becomes `r`.
   */
  function ReplaceAll(s: string, p: string, r: string): string
    requires |p| > 0
    decreases |s|
  {
    if |s| < |p| then s
    else if s[..|p|] == p then r + ReplaceAll(s[|p|..], p, r)
    else [s[0]] + ReplaceAll(s[1..], p, r)
  }

  /** A leading part in which no occurrence of `p` starts is copied unchanged. */
  lemma {:induction false} ReplaceKeepsPrefix(w: string, v: string, p: string, r: string)
    requires |p| > 0
    requires forall j: nat :: j < |w| ==> !OccursAt(w + v, p, j)
    ensures ReplaceAll(w + v, p, r) == w + ReplaceAll(v, p, r)
    decreases |w|
  {
    var s := w + v;
    if w == [] {
      assert s == v;
    } else if |s| < |p| {
      assert ReplaceAll(v, p, r) == v;
    } else {
      assert !OccursAt(s, p, 0);
      assert s[1..] == w[1..] + v;
      forall j: nat | j < |w[1..]|
        ensures !OccursAt(w[1..] + v, p, j)
      {
        OccursShift(s, p, j);
      }
      ReplaceKeepsPrefix(w[1..], v, p, r);
      assert [s[0]] + (w[1..] + ReplaceAll(v, p, r)) == w + ReplaceAll(v, p, r);
    }
  }

  /** A string without `p` is unchanged by replacing `p`. */
  lemma ReplaceAbsent(s: string, p: string, r: string)
    requires |p| > 0 && !Contains(s, p)
    ensures ReplaceAll(s, p, r) == s
  {
    assert s + [] == s;
    ReplaceKeepsPrefix(s, [], p, r);
  }

  /** The text before the first `p` is kept and that `p` becomes `r`. */
  lemma ReplaceAtFirst(s: string, p: string, r: string, i: nat)
    requires |p| > 0 && OccursAt(s, p, i)
    requires forall j: nat :: j < i ==> !OccursAt(s, p, j)
    ensures ReplaceAll(s, p, r) == s[..i] + r + ReplaceAll(s[i + |p|..], p, r)
  {
    var w, v := s[..i], s[i..];
    assert s == w + v;
    ReplaceKeepsPrefix(w, v, p, r);
    assert v[..|p|] == s[i..i + |p|];
    ReplaceAtStart(v, p, r);
    assert v[|p|..] == s[i + |p|..];
  }

  /** A leading `p` becomes `r`. */
  lemma ReplaceAtStart(v: string, p: string, r: string)
    requires |p| > 0 && StartsWith(v, p)
    ensures ReplaceAll(v, p, r) == r + ReplaceAll(v[|p|..], p, r)
  {
  }

  /** After replacing a `p` that occurs, the replacement text occurs. */
  lemma ReplaceInserts(s: string, p: string, r: string)
    requires |p| > 0 && Contains(s, p)
    ensures Contains(ReplaceAll(s, p, r), r)
  {
    var i := IndexOf(s, p).value;
    ReplaceAtFirst(s, p, r, i);
    var t := s[..i] + r + ReplaceAll(s[i + |p|..], p, r);
    assert t[i..i + |r|] == r;
    assert OccursAt(t, r, i);
  }

  /**
   * `x` and `y` cannot overlap: neither occurs in the other, and no non-empty proper
   * suffix of one is a prefix of the other.
   */
  predicate NoOverlap(x: string, y: string)
  {
    && !Contains(x, y)
    && !Contains(y, x)
    && (forall k :: 0 < k < |x| ==> !StartsWith(y, x[k..]))
    && (forall k :: 0 < k < |y| ==> !StartsWith(x, y[k..]))
  }

  /**
   * A way to establish `NoOverlap` from a few characters: one of `x` that `y` lacks,
   * one of `y` that `x` lacks and before which the last character of `x` does not
   * appear in `y`, and a last character of `y` that `x` lacks.
   */
  lemma NoOverlapFromChars(x: string, y: string, i: nat, m: nat)
    requires |x| > 0 && |y| > 0
    requires i < |x| && Lacks(y, x[i])
    requires m < |y| && Lacks(x, y[m])
    requires Lacks(y[..m], x[|x| - 1])
    requires Lacks(x, y[|y| - 1])
    ensures NoOverlap(x, y)
  {
    LacksExcludes(y, x, i);
    LacksExcludes(x, y, m);
    forall k | 0 < k < |x|
      ensures !StartsWith(y, x[k..])
    {
      var w := x[k..];
      if |w| <= |y| {
        if |w| > m {
          assert w[m] == x[k + m];
          assert y[..|w|][m] == y[m];
        } else {
          assert w[|w| - 1] == x[|x| - 1];
          assert y[..|w|][|w| - 1] == y[..m][|w| - 1];
        }
      }
    }
    forall k | 0 < k < |y|
      ensures !StartsWith(x, y[k..])
    {
      var w := y[k..];
      if |w| <= |x| {
        assert w[|w| - 1] == y[|y| - 1];
        assert x[..|w|][|w| - 1] == x[|w| - 1];
      }
    }
  }

  /** Dropping `k` leading characters keeps "no occurrence across the border". */
  lemma NoStraddleSuffix(u: string, w: string, p: string, k: nat)
    requires k <= |u|
    requires forall j: nat :: j < |u| < j + |p| ==> !OccursAt(u + w, p, j)
    ensures forall j: nat :: j < |u| - k < j + |p| ==> !OccursAt(u[k..] + w, p, j)
  {
    var s := u + w;
    assert s[k..] == u[k..] + w;
    assert s[k..|s|] == s[k..];
    forall j: nat | j < |u| - k < j + |p|
      ensures !OccursAt(u[k..] + w, p, j)
    {
      OccursInSlice(s, p, k, |s|, j);
    }
  }

  /**
   * Replacing `p` never cuts into the text on either side of a boundary that no
   * occurrence of `p` straddles.
   */
  lemma {:induction false} ReplaceConcat(u: string, w: string, p: string, r: string)
    requires |p| > 0
    requires forall j: nat :: j < |u| < j + |p| ==> !OccursAt(u + w, p, j)
    ensures ReplaceAll(u + w, p, r) == ReplaceAll(u, p, r) + ReplaceAll(w, p, r)
    decreases |u|
  {
    var s := u + w;
    if u == [] {
      assert s == w;
    } else if |s| < |p| {
      assert ReplaceAll(u, p, r) == u && ReplaceAll(w, p, r) == w;
    } else if s[..|p|] == p {
      assert OccursAt(s, p, 0);
      ReplaceMatchStep(u, w, p, r);
      NoStraddleSuffix(u, w, p, |p|);
      ReplaceConcat(u[|p|..], w, p, r);
      Assoc(r, ReplaceAll(u[|p|..], p, r), ReplaceAll(w, p, r));
    } else {
      ReplaceSkipStep(u, w, p, r);
      NoStraddleSuffix(u, w, p, 1);
      ReplaceConcat(u[1..], w, p, r);
      Assoc([u[0]], ReplaceAll(u[1..], p, r), ReplaceAll(w, p, r));
    }
  }

  lemma Assoc(a: string, b: string, c: string)
    ensures a + (b + c) == (a + b) + c
  {
  }

  /** A `p` at the start of `u + w` that lies within `u` is replaced in both. */
  lemma ReplaceMatchStep(u: string, w: string, p: string, r: string)
    requires |p| > 0 && |p| <= |u + w| && (u + w)[..|p|] == p
    requires |u| < |p| ==> !OccursAt(u + w, p, 0)
    ensures |p| <= |u|
    ensures ReplaceAll(u + w, p, r) == r + ReplaceAll(u[|p|..] + w, p, r)
    ensures ReplaceAll(u, p, r) == r + ReplaceAll(u[|p|..], p, r)
  {
    var s := u + w;
    assert OccursAt(s, p, 0);
    assert u[..|p|] == p;
    assert s[|p|..] == u[|p|..] + w;
  }

  /** Without a `p` at the start, the first character of `u + w` is copied in both. */
  lemma ReplaceSkipStep(u: string, w: string, p: string, r: string)
    requires |p| > 0 && u != [] && |p| <= |u + w| && (u + w)[..|p|] != p
    ensures ReplaceAll(u + w, p, r) == [u[0]] + ReplaceAll(u[1..] + w, p, r)
    ensures ReplaceAll(u, p, r) == [u[0]] + ReplaceAll(u[1..], p, r)
  {
    var s := u + w;
    assert s[1..] == u[1..] + w;
    if |u| < |p| {
      assert ReplaceAll(u[1..], p, r) == u[1..];
      assert ReplaceAll(u, p, r) == u;
    } else {
      assert u[..|p|] == s[..|p|];
    }
  }


  /** No occurrence of `p` straddles the start of an occurrence of `x` that cannot overlap `p`. */
  lemma NoStraddleBefore(s: string, x: string, p: string, i: nat)
    requires |p| > 0 && OccursAt(s, x, i) && NoOverlap(x, p)
    ensures forall j: nat :: j < i < j + |p| ==> !OccursAt(s, p, j)
  {
    forall j: nat | j < i < j + |p|
      ensures !OccursAt(s, p, j)
    {
      if j + |p| <= |s| {
        if i + |x| <= j + |p| {
          SliceOfSlice(s, j, j + |p|, i - j, i - j + |x|);
          assert s[i..i + |x|] == x;
          if s[j..j + |p|] == p {
            assert OccursAt(p, x, i - j);
          }
        } else {
          assert !StartsWith(x, p[i - j..]);
          SliceOfSlice(s, j, j + |p|, i - j, |p|);
          SliceOfSlice(s, i, i + |x|, 0, j + |p| - i);
          assert s[i..i + |x|][..j + |p| - i] == x[..j + |p| - i];
        }
      }
    }
  }

  /** No occurrence of `p` starts inside a leading `x` that cannot overlap `p`. */
  lemma NoStartInside(x: string, v: string, p: string)
    requires |p| > 0 && |x| > 0 && NoOverlap(x, p)
    ensures forall j: nat :: j < |x| ==> !OccursAt(x + v, p, j)
  {
    forall j: nat | j < |x|
      ensures !OccursAt(x + v, p, j)
    {
      var s := x + v;
      if j + |p| <= |s| {
        if j + |p| <= |x| {
          assert s[j..j + |p|] == x[j..j + |p|];
          assert !OccursAt(x, p, j);
        } else if j == 0 {
          assert s[..|x|] == x;
          assert s[j..j + |p|][..|x|] == x;
          assert !OccursAt(p, x, 0);
        } else {
          SliceOfSlice(s, j, j + |p|, 0, |x| - j);
          assert s[j..|x|] == x[j..];
          assert !StartsWith(p, x[j..]);
        }
      }
    }
  }

  /** An occurrence of `x` that cannot overlap `p` survives the replacement of `p`. */
  lemma ReplacePreserves(s: string, x: string, p: string, r: string)
    requires |p| > 0 && |x| > 0
    requires Contains(s, x) && NoOverlap(x, p)
    ensures Contains(ReplaceAll(s, p, r), x)
  {
    var i: nat :| i <= |s| && OccursAt(s, x, i);
    var u, v := s[..i], s[i + |x|..];
    AroundOccurrence(s, x, i);
    NoStraddleBefore(s, x, p, i);
    ReplaceConcat(u, x + v, p, r);
    NoStartInside(x, v, p);
    ReplaceKeepsPrefix(x, v, p, r);
    ContainsMiddle(ReplaceAll(u, p, r), x, ReplaceAll(v, p, r));
  }

  /** A text is what precedes an occurrence, the occurrence, and what follows it. */
  lemma AroundOccurrence(s: string, x: string, i: nat)
    requires OccursAt(s, x, i)
    ensures s == s[..i] + (x + s[i + |x|..])
  {
    assert s == s[..i] + s[i..i + |x|] + s[i + |x|..];
  }

  /** `x` occurs in `a + (x + b)`. */
  lemma ContainsMiddle(a: string, x: string, b: string)
    ensures Contains(a + (x + b), x)
  {
    var t := a + (x + b);
    assert t[|a|..|a| + |x|] == x;
    assert OccursAt(t, x, |a|);
  }

  /** A string with a first character `c` starts with `x` exactly when `c` and the rest match. */
  lemma ConsPrefix(c: char, t: string, x: string)
    requires |x| > 0
    ensures StartsWith([c] + t, x) <==> (c == x[0] && StartsWith(t, x[1..]))
  {
    var s := [c] + t;
    if |x| <= |s| {
      assert s[..|x|] == [c] + t[..|x| - 1];
      if s[..|x|] == x {
        assert x == [x[0]] + x[1..];
      }
      if c == x[0] && t[..|x| - 1] == x[1..] {
        assert x == [x[0]] + x[1..];
      }
    }
  }

  /**
   * If `ReplaceAll(t, p, r)` starts with a suffix `x[k..]` of `x`, and `x` cannot
   * overlap `r`, then `t` itself starts with it.
   */
  lemma {:induction false} ReplacePrefixBack(t: string, x: string, k: nat, p: string, r: string)
    requires |p| > 0 && 0 < k <= |x| && NoOverlap(x, r)
    ensures StartsWith(ReplaceAll(t, p, r), x[k..]) ==> StartsWith(t, x[k..])
    decreases |t|
  {
    var y := x[k..];
    var res := ReplaceAll(t, p, r);
    if y == [] || |t| < |p| {
    } else if t[..|p|] == p {
      assert res == r + ReplaceAll(t[|p|..], p, r);
      if |y| <= |res| {
        if |y| <= |r| {
          assert res[..|y|] == r[..|y|];
          assert !StartsWith(r, x[k..]);
        } else {
          assert res[..|y|][..|r|] == r;
          assert !OccursAt(x, r, k);
          assert x[k..k + |r|] == y[..|r|];
        }
      }
    } else {
      var tail := ReplaceAll(t[1..], p, r);
      assert res == [t[0]] + tail;
      if k + 1 == |x| {
        if StartsWith(res, y) {
          assert y == [res[0]] == [t[0]];
          assert t[..1] == [t[0]];
        }
      } else {
        assert x[k + 1..] == y[1..];
        ReplacePrefixBack(t[1..], x, k + 1, p, r);
        if StartsWith(res, y) {
          assert tail[..|y| - 1] == res[1..|y|] == y[1..];
          assert t[..|y|] == [t[0]] + t[1..][..|y| - 1];
        }
      }
    }
  }

  /** A window inside the first part of `r + t` is a window of `r`. */
  lemma WindowInFirst(r: string, t: string, x: string, i: nat)
    requires i + |x| <= |r|
    ensures OccursAt(r + t, x, i) ==> OccursAt(r, x, i)
  {
    assert (r + t)[i..i + |x|] == r[i..i + |x|];
  }

  /** A window across the border of `r + t` starts with a suffix of `r`. */
  lemma WindowAcross(r: string, t: string, x: string, i: nat)
    requires i < |r| < i + |x|
    ensures OccursAt(r + t, x, i) ==> StartsWith(x, r[i..])
  {
    if OccursAt(r + t, x, i) {
      assert (r + t)[i..i + |x|][..|r| - i] == r[i..];
    }
  }

  /** A window inside the second part of `r + t` is a window of `t`. */
  lemma WindowInSecond(r: string, t: string, x: string, i: nat)
    requires |r| <= i
    ensures OccursAt(r + t, x, i) ==> OccursAt(t, x, i - |r|)
  {
    if i + |x| <= |r + t| {
      assert (r + t)[i..i + |x|] == t[i - |r|..i - |r| + |x|];
    }
  }

  /** Putting an `r` that cannot overlap `x` in front of a text without `x` creates no `x`. */
  lemma NoOccurrenceAfter(r: string, t: string, x: string)
    requires |x| > 0 && NoOverlap(x, r) && !Contains(t, x)
    ensures !Contains(r + t, x)
  {
    forall i: nat | i <= |r + t|
      ensures !OccursAt(r + t, x, i)
    {
      if i + |x| <= |r| {
        WindowInFirst(r, t, x, i);
        assert !OccursAt(r, x, i);
      } else if i >= |r| {
        WindowInSecond(r, t, x, i);
        assert !OccursAt(t, x, i - |r|);
      } else if i == 0 {
        WindowAcross(r, t, x, i);
        assert r[0..] == r;
        assert !OccursAt(x, r, 0);
      } else {
        WindowAcross(r, t, x, i);
        assert !StartsWith(x, r[i..]);
      }
    }
  }

  /** A suffix of a text without `x` has no `x` either. */
  lemma SuffixLacks(s: string, k: nat, x: string)
    requires k <= |s|
    ensures !Contains(s, x) ==> !Contains(s[k..], x)
  {
    forall j: nat | j <= |s[k..]|
      ensures OccursAt(s[k..], x, j) ==> OccursAt(s, x, k + j)
    {
      OccursInSlice(s, x, k, |s|, j);
      assert s[k..|s|] == s[k..];
    }
  }

  /** A copied first character that does not start `x` creates no `x` in front of the rest. */
  lemma ConsNoOccurrence(s: string, x: string, p: string, r: string)
    requires |s| > 0 && |p| > 0 && |x| > 0 && NoOverlap(x, r)
    requires !OccursAt(s, x, 0) && !Contains(ReplaceAll(s[1..], p, r), x)
    ensures !Contains([s[0]] + ReplaceAll(s[1..], p, r), x)
  {
    var tail := ReplaceAll(s[1..], p, r);
    var res := [s[0]] + tail;
    forall i: nat | i <= |res|
      ensures !OccursAt(res, x, i)
    {
      if i == 0 {
        ConsPrefix(s[0], tail, x);
        ConsPrefix(s[0], s[1..], x);
        assert [s[0]] + s[1..] == s;
        if |x| > 1 {
          ReplacePrefixBack(s[1..], x, 1, p, r);
        }
      } else {
        WindowInSecond([s[0]], tail, x, i);
        assert !OccursAt(tail, x, i - 1);
      }
    }
  }

  /** Replacing `p` by an `r` that cannot overlap `x` creates no new occurrence of `x`. */
  lemma {:induction false} ReplaceCreatesNothing(s: string, x: string, p: string, r: string)
    requires |p| > 0 && |x| > 0 && NoOverlap(x, r)
    requires !Contains(s, x)
    ensures !Contains(ReplaceAll(s, p, r), x)
    decreases |s|
  {
    if |s| < |p| {
    } else if s[..|p|] == p {
      SuffixLacks(s, |p|, x);
      ReplaceCreatesNothing(s[|p|..], x, p, r);
      NoOccurrenceAfter(r, ReplaceAll(s[|p|..], p, r), x);
    } else {
      assert !OccursAt(s, x, 0);
      ContainsShift(s, x);
      ReplaceCreatesNothing(s[1..], x, p, r);
      ConsNoOccurrence(s, x, p, r);
    }
  }

  // ---------------------------------------------------------------------------
  // `rfind` and `lower()`
  // ---------------------------------------------------------------------------

  /** Python's `s.rfind(c)` for a character: the index of its last occurrence. */
  function LastIndexOf(s: string, c: char): (r: Option<nat>)
    ensures r.None? <==> c !in s
    ensures r.Some? ==> r.value < |s| && s[r.value] == c && c !in s[r.value + 1..]
    decreases |s|
  {
    if |s| == 0 then None
    else if s[|s| - 1] == c then Some(|s| - 1)
    else
      var r := LastIndexOf(s[..|s| - 1], c);
      assert s == s[..|s| - 1] + [s[|s| - 1]];
      match r
      case None => None
      case Some(i) =>
        assert s[i + 1..] == s[..|s| - 1][i + 1..] + [s[|s| - 1]];
        Some(i)
  }

  /** A later occurrence of `c` lies in the tail after `i`. */
  lemma InTail(s: string, c: char, i: nat, k: nat)
    ensures i < k < |s| && s[k] == c ==> c in s[i + 1..]
  {
    if i < k < |s| && s[k] == c {
      assert s[i + 1..][k - i - 1] == c;
    }
  }

  /** The last occurrence of `c` is the one with no `c` after it. */
  lemma LastIndexOfAt(s: string, c: char, k: nat)
    requires k < |s| && s[k] == c && c !in s[k + 1..]
    ensures LastIndexOf(s, c) == Some(k)
  {
    var i := LastIndexOf(s, c).value;
    InTail(s, c, i, k);
    InTail(s, c, k, i);
  }

  /** The ASCII upper-case letters. */
  predicate IsAsciiUpper(c: char)
  {
    'A' <= c <= 'Z'
  }

  function LowerChar(c: char): (d: char)
    ensures !IsAsciiUpper(d)
    ensures IsAsciiUpper(c) || d == c
    ensures IsAsciiUpper(c) ==> 'a' <= d <= 'z'
  {
    if IsAsciiUpper(c) then (c as int - 'A' as int + 'a' as int) as char else c
  }

  /** Python's `s.lower()` on ASCII text: each upper-case letter becomes lower-case. */
  function Lower(s: string): (r: string)
    ensures |r| == |s|
    ensures forall i :: 0 <= i < |s| ==> r[i] == LowerChar(s[i])
  {
    seq(|s|, i requires 0 <= i < |s| => LowerChar(s[i]))
  }
}
