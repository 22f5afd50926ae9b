/** The parts of Python's `str` that the extraction code relies on: the
    whitespace class (shared by `\s` in a `str` pattern and by `str.strip()`)
    `strip()` itself, and the `find`/`join`/`split` trio used to build and
    read back comma-separated lists. A Python `str` is a sequence of code points. */
module PyText {
  import opened Wrappers

  /** `c.isspace()` in Python 3. The `re` module's `\s` (for `str` patterns)
      and `str.strip()` with no argument both test exactly this class. */
  predicate IsSpace(c: char)
  {
    || ('\t' <= c <= '\r')
    || ('\U{1c}' <= c <= '\U{1f}')
    || c == ' '
    || c == '\U{85}'
    || c == '\U{a0}'
    || c == '\U{1680}'
    || ('\U{2000}' <= c <= '\U{200a}')
    || c == '\U{2028}'
    || c == '\U{2029}'
    || c == '\U{202f}'
    || c == '\U{205f}'
    || c == '\U{3000}'
  }

  /** Every character of `t[i..j]` is whitespace. */
  predicate AllSpaceIn(t: string, i: nat, j: nat)
    requires i <= j <= |t|
  {
    forall k :: i <= k < j ==> IsSpace(t[k])
  }

  /** No character of `t[i..j]` is a line feed. */
  predicate NoNewlineIn(t: string, i: nat, j: nat)
    requires i <= j <= |t|
  {
    forall k :: i <= k < j ==> t[k] != '\n'
  }

  /** The literal `lit` occurs in `t` starting at position `i`. */
  predicate LitAt(t: string, i: nat, lit: string)
  {
    i + |lit| <= |t| && t[i..i + |lit|] == lit
  }

  /** The first position at or after `i` that does not hold whitespace
      (or the end of `s`). */
  function SkipSpace(s: string, i: nat): (k: nat)
    requires i <= |s|
    ensures i <= k <= |s| && AllSpaceIn(s, i, k)
    ensures k == |s| || !IsSpace(s[k])
    decreases |s| - i
  {
    if i < |s| && IsSpace(s[i]) then SkipSpace(s, i + 1) else i
  }

  /** Moving back from `j` but not past `lo`, the first position whose
      preceding character is not whitespace. */
  function SkipSpaceBack(s: string, lo: nat, j: nat): (k: nat)
    requires lo <= j <= |s|
    ensures lo <= k <= j && AllSpaceIn(s, k, j)
    ensures k == lo || !IsSpace(s[k - 1])
    decreases j - lo
  {
    if lo < j && IsSpace(s[j - 1]) then SkipSpaceBack(s, lo, j - 1) else j
  }

  /** The slice `s.strip()` keeps, found as CPython finds it: a forward scan
      over the leading whitespace, then a backward scan over the trailing
      whitespace that stops at the first. Everything cut away is whitespace,
      and what is kept neither begins nor ends with whitespace. */
  function StripBounds(s: string): (b: (nat, nat))
    ensures b.0 <= b.1 <= |s| && AllSpaceIn(s, 0, b.0) && AllSpaceIn(s, b.1, |s|)
    ensures b.0 == b.1 || (!IsSpace(s[b.0]) && !IsSpace(s[b.1 - 1]))
  {
    var i := SkipSpace(s, 0);
    (i, SkipSpaceBack(s, i, |s|))
  }

  /** `s.strip()`: the middle slice of `s`, with only whitespace cut away at
      either end, that neither begins nor ends with whitespace. */
  function Strip(s: string): (r: string)
    ensures exists i: nat, j: nat :: i <= j <= |s| && r == s[i..j] && AllSpaceIn(s, 0, i) && AllSpaceIn(s, j, |s|)
    ensures r == [] || (!IsSpace(r[0]) && !IsSpace(r[|r| - 1]))
  {
    var (i, j) := StripBounds(s);
    s[i..j]
  }

  /** A string that already neither begins nor ends with whitespace is left as it is. */
  lemma StripKeeps(s: string)
    requires s == [] || (!IsSpace(s[0]) && !IsSpace(s[|s| - 1]))
    ensures Strip(s) == s
  {
    if s != [] {
      assert SkipSpace(s, 0) == 0;
      assert SkipSpaceBack(s, 0, |s|) == |s|;
    }
  }

  /** The same for a slice `t[i..j]`. */
  lemma StripSliceKeeps(t: string, i: nat, j: nat)
    requires i <= j <= |t| && (i == j || (!IsSpace(t[i]) && !IsSpace(t[j - 1])))
    ensures Strip(t[i..j]) == t[i..j]
  {
    var g := t[i..j];
    if i < j {
      assert g[0] == t[i] && g[|g| - 1] == t[j - 1];
    }
    StripKeeps(g);
  }

  /** Stripping a slice of `t` gives a slice of `t` inside it. */
  lemma StripOfSlice(t: string, i: nat, j: nat) returns (a: nat, b: nat)
    requires i <= j <= |t|
    ensures i <= a <= b <= j && Strip(t[i..j]) == t[a..b]
  {
    var (x, y) := StripBounds(t[i..j]);
    a, b := i + x, i + y;
    assert t[i..j][x..y] == t[a..b];
  }

  /** A slice inside a span without line feeds holds none. */
  lemma NoNewlineSlice(t: string, i: nat, j: nat, a: nat, b: nat)
    requires i <= a <= b <= j <= |t| && NoNewlineIn(t, i, j)
    ensures '\n' !in t[a..b]
  {
    forall k | 0 <= k < b - a ensures t[a..b][k] != '\n' {
      assert t[a..b][k] == t[a + k];
    }
  }

  /** `s.find(pat, k)` for a non-empty `pat`: the first index at or after `k`
      where `pat` occurs, or `None` for `-1`. */
  function Find(s: string, pat: string, k: nat): (r: Option<nat>)
    requires |pat| > 0 && k <= |s|
    decreases |s| - k
    ensures r.Some? ==> k <= r.value && LitAt(s, r.value, pat)
    ensures forall i :: k <= i <= |s| && (r.None? || i < r.value) ==> !LitAt(s, i, pat)
  {
    if LitAt(s, k, pat) then Some(k)
    else if k == |s| then None
    else Find(s, pat, k + 1)
  }

  /** `sep.join(parts)`. */
  function Join(parts: seq<string>, sep: string): string
  {
    if |parts| == 0 then ""
    else if |parts| == 1 then parts[0]
    else parts[0] + sep + Join(parts[1..], sep)
  }

  /** `s.split(sep)` for a non-empty `sep`: the pieces between successive
      non-overlapping occurrences of `sep`, scanning from the left. Joining
      the pieces again gives back `s`. */
  function Split(s: string, sep: string): (r: seq<string>)
    requires |sep| > 0
    decreases |s|
    ensures |r| >= 1 && Join(r, sep) == s
  {
    match Find(s, sep, 0)
    case None => [s]
    case Some(i) =>
      var rest := Split(s[i + |sep|..], sep);
      assert s == s[..i] + sep + s[i + |sep|..];
      [s[..i]] + rest
  }

  /** A character that is in no part and not in the separator is not in the
      joined string. */
  lemma {:induction false} JoinAvoids(parts: seq<string>, sep: string, c: char)
    requires c !in sep && forall i :: 0 <= i < |parts| ==> c !in parts[i]
    ensures c !in Join(parts, sep)
  {
    if |parts| > 1 {
      JoinAvoids(parts[1..], sep, c);
    }
  }

  /** `find` stops at the first occurrence of the separator when the text
      before it cannot start one. */
  lemma FindAfter(p: string, sep: string, rest: string)
    requires |sep| > 0 && sep[0] !in p
    ensures Find(p + sep + rest, sep, 0) == Some(|p|)
  {
    var s := p + sep + rest;
    assert s[|p|..|p| + |sep|] == sep;
    assert LitAt(s, |p|, sep);
    var r := Find(s, sep, 0);
    assert r.Some? && r.value <= |p|;
    assert LitAt(s, r.value, sep);
    assert s[r.value] == sep[0];
    assert forall i :: 0 <= i < |p| ==> s[i] == p[i] && p[i] in p;
  }

  /** `pat` occurs in `a + b` at `|a| + k` exactly when it occurs in `b` at `k`. */
  lemma LitShift(a: string, b: string, pat: string, k: nat)
    ensures LitAt(a + b, |a| + k, pat) == LitAt(b, k, pat)
  {
    if k + |pat| <= |b| {
      assert (a + b)[|a| + k..|a| + k + |pat|] == b[k..k + |pat|];
    }
  }

  /** Searching `a + b` from `|a| + k` is searching `b` from `k`, shifted by `|a|`. */
  lemma {:induction false} FindShift(a: string, b: string, pat: string, k: nat)
    requires |pat| > 0 && k <= |b|
    ensures Find(b, pat, k).None? ==> Find(a + b, pat, |a| + k).None?
    ensures Find(b, pat, k).Some? ==> Find(a + b, pat, |a| + k) == Some(|a| + Find(b, pat, k).value)
    decreases |b| - k
  {
    LitShift(a, b, pat, k);
    if k < |b| {
      FindShift(a, b, pat, k + 1);
    }
  }

  /** `find` fails on a text whose tail from `k` never holds the
      separator's first character. */
  lemma {:induction false} FindNone(s: string, sep: string, k: nat)
    requires |sep| > 0 && k <= |s|
    requires forall i :: k <= i < |s| ==> s[i] != sep[0]
    ensures Find(s, sep, k) == None
    decreases |s| - k
  {
    assert k < |s| ==> s[k] != sep[0];
    assert !LitAt(s, k, sep);
    if k < |s| {
      FindNone(s, sep, k + 1);
    }
  }

  /** `split` cuts at the first separator when the text before it cannot
      start one. */
  lemma SplitAfter(p: string, sep: string, rest: string)
    requires |sep| > 0 && sep[0] !in p
    ensures Split(p + sep + rest, sep) == [p] + Split(rest, sep)
  {
    var s := p + sep + rest;
    FindAfter(p, sep, rest);
    assert s[..|p|] == p;
    assert s[|p| + |sep|..] == rest;
  }

  /** `split` undoes `join` when no part holds the separator's first
      character. */
  lemma {:induction false} SplitJoin(parts: seq<string>, sep: string)
    requires |sep| > 0 && |parts| >= 1
    requires forall i :: 0 <= i < |parts| ==> sep[0] !in parts[i]
    ensures Split(Join(parts, sep), sep) == parts
  {
    if |parts| == 1 {
      assert forall i :: 0 <= i < |parts[0]| ==> parts[0][i] in parts[0];
      FindNone(parts[0], sep, 0);
    } else {
      SplitAfter(parts[0], sep, Join(parts[1..], sep));
      SplitJoin(parts[1..], sep);
      assert parts == [parts[0]] + parts[1..];
    }
  }
}
