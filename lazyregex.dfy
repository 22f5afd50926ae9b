/** `re.search` for the one pattern shape the extraction code uses, with
    Python's backtracking order spelled out, and the specification of the
    match it finds stated without any search.

    The shape is `open\s*(.*?)\s*close` (a "padded" pattern) or
    `open(.*?)close` (unpadded), where `open` and `close` are matched
    literally. No flags are given, so `.` is any character but a line feed,
    while `\s` is any whitespace, line feeds included. */
module LazyRegex {
  import opened Wrappers
  import opened PyText

  datatype Pattern = Pattern(open: string, padded: bool, close: string)

  /** A match that begins at `pos` and whose group 1 is `t[from..to]`. */
  datatype Hit = Hit(pos: nat, from: nat, to: nat)

  /** `t[i..j]` is a span one `\s*` of the pattern can consume: whitespace
      when the pattern is padded, nothing at all otherwise. */
  predicate Gap(t: string, i: nat, j: nat, padded: bool)
  {
    i <= j <= |t| && (if padded then AllSpaceIn(t, i, j) else i == j)
  }

  /** One way of matching the whole pattern: it begins at `p`, group 1 is
      `t[s..e]`, and `close` begins at `f`. */
  predicate MatchWith(t: string, pat: Pattern, p: nat, s: nat, e: nat, f: nat)
  {
    && LitAt(t, p, pat.open)
    && Gap(t, p + |pat.open|, s, pat.padded)
    && s <= e <= |t| && NoNewlineIn(t, s, e)
    && Gap(t, e, f, pat.padded)
    && LitAt(t, f, pat.close)
  }

  /** The pattern matches somewhere in `t`. */
  ghost predicate Matches(t: string, pat: Pattern)
  {
    exists p: nat, s: nat, e: nat, f: nat :: MatchWith(t, pat, p, s, e, f)
  }

  /** The match `re.search` reports: it begins at the leftmost position where
      any match begins; from there its leading `\s*` is the longest any match
      allows (greedy), and after that its group 1 is the shortest any match
      allows (lazy). The trailing `\s*` does not affect group 1. */
  ghost predicate IsFirstMatch(t: string, pat: Pattern, p: nat, s: nat, e: nat)
  {
    && (exists f: nat :: MatchWith(t, pat, p, s, e, f))
    && (forall p': nat, s': nat, e': nat, f': nat :: p' < p ==> !MatchWith(t, pat, p', s', e', f'))
    && (forall s': nat, e': nat, f': nat :: s' > s ==> !MatchWith(t, pat, p, s', e', f'))
    && (forall e': nat, f': nat :: e' < e ==> !MatchWith(t, pat, p, s, e', f'))
  }

  /** At most one match satisfies IsFirstMatch. */
  lemma FirstMatchUnique(t: string, pat: Pattern, p1: nat, s1: nat, e1: nat, p2: nat, s2: nat, e2: nat)
    requires IsFirstMatch(t, pat, p1, s1, e1) && IsFirstMatch(t, pat, p2, s2, e2)
    ensures p1 == p2 && s1 == s2 && e1 == e2
  {
    var f1: nat :| MatchWith(t, pat, p1, s1, e1, f1);
    var f2: nat :| MatchWith(t, pat, p2, s2, e2, f2);
  }

  /** Where a `\s*` of the pattern starting at `i` stops when it is greedy. */
  function GreedyEnd(t: string, i: nat, padded: bool): (j: nat)
    requires i <= |t|
    ensures i <= j <= |t| && Gap(t, i, j, padded)
  {
    if padded then SkipSpace(t, i) else i
  }

  /** The spans a `\s*` at `i` may take are exactly those up to its greedy
      end, so backtracking from the greedy end down to `i` tries them all. */
  lemma GapUpToGreedyEnd(t: string, i: nat, k: nat, padded: bool)
    requires i <= |t|
    ensures Gap(t, i, k, padded) <==> i <= k <= GreedyEnd(t, i, padded)
  {
    var j := GreedyEnd(t, i, padded);
    if padded && j < k <= |t| {
      assert !IsSpace(t[j]);
    }
  }

  /** Backtracking the trailing `\s*` from its greedy end `f` down to `j`:
      does `close` begin at one of those positions? */
  function CloseWithin(t: string, close: string, j: nat, f: nat): bool
    requires j <= f
    decreases f - j
  {
    LitAt(t, f, close) || (j < f && CloseWithin(t, close, j, f - 1))
  }

  lemma {:induction false} CloseWithinIntro(t: string, close: string, j: nat, f: nat, g: nat)
    requires j <= g <= f && LitAt(t, g, close)
    ensures CloseWithin(t, close, j, f)
    decreases f - j
  {
    if g < f {
      CloseWithinIntro(t, close, j, f - 1, g);
    }
  }

  lemma {:induction false} CloseWithinElim(t: string, close: string, j: nat, f: nat)
    requires j <= f && CloseWithin(t, close, j, f)
    ensures exists g: nat :: j <= g <= f && LitAt(t, g, close)
    decreases f - j
  {
    if !LitAt(t, f, close) {
      CloseWithinElim(t, close, j, f - 1);
    }
  }

  /** With group 1 ending at `e`, the rest of the pattern, `\s*close`, matches. */
  predicate Closes(t: string, pat: Pattern, e: nat)
    requires e <= |t|
  {
    CloseWithin(t, pat.close, e, GreedyEnd(t, e, pat.padded))
  }

  lemma ClosesIntro(t: string, pat: Pattern, e: nat, f: nat)
    requires e <= |t| && Gap(t, e, f, pat.padded) && LitAt(t, f, pat.close)
    ensures Closes(t, pat, e)
  {
    GapUpToGreedyEnd(t, e, f, pat.padded);
    CloseWithinIntro(t, pat.close, e, GreedyEnd(t, e, pat.padded), f);
  }

  lemma ClosesElim(t: string, pat: Pattern, e: nat) returns (f: nat)
    requires e <= |t| && Closes(t, pat, e)
    ensures Gap(t, e, f, pat.padded) && LitAt(t, f, pat.close)
  {
    CloseWithinElim(t, pat.close, e, GreedyEnd(t, e, pat.padded));
    f :| e <= f <= GreedyEnd(t, e, pat.padded) && LitAt(t, f, pat.close);
    GapUpToGreedyEnd(t, e, f, pat.padded);
  }

  /** The lazy `(.*?)` from `e` on: the least end `k >= e` such that `t[e..k]`
      holds no line feed and the rest of the pattern matches after it. */
  function LazyEnd(t: string, pat: Pattern, e: nat): (r: Option<nat>)
    requires e <= |t|
    ensures r.Some? ==> e <= r.value <= |t| && NoNewlineIn(t, e, r.value) && Closes(t, pat, r.value)
    ensures r.Some? ==> forall k: nat :: e <= k < r.value ==> !Closes(t, pat, k)
    ensures r.None? ==> forall k: nat :: e <= k <= |t| && NoNewlineIn(t, e, k) ==> !Closes(t, pat, k)
    decreases |t| - e
  {
    if Closes(t, pat, e) then Some(e)
    else if e < |t| && t[e] != '\n' then LazyEnd(t, pat, e + 1)
    else None
  }

  /** The leading `\s*` with backtracking, for a match that begins at `p`:
      tries group 1 starting at `s`, `s - 1`, ..., `q` and keeps the first
      start from which the lazy capture succeeds, with the end it reaches. */
  function LeadFrom(t: string, pat: Pattern, p: nat, q: nat, s: nat): (r: Option<Hit>)
    requires q <= s <= |t|
    ensures r.Some? ==> r.value.pos == p && q <= r.value.from <= s
    ensures r.Some? ==> LazyEnd(t, pat, r.value.from) == Some(r.value.to)
    ensures forall s': nat :: q <= s' <= s && (r.None? || r.value.from < s') ==> LazyEnd(t, pat, s').None?
    decreases s - q
  {
    match LazyEnd(t, pat, s)
    case Some(e) => Some(Hit(p, s, e))
    case None => if s == q then None else LeadFrom(t, pat, p, q, s - 1)
  }

  /** `re.match` of the pattern at position `p`. */
  function MatchAt(t: string, pat: Pattern, p: nat): (r: Option<Hit>)
    requires p <= |t|
    ensures r.Some? ==> r.value.pos == p && r.value.from <= r.value.to <= |t|
    ensures r.Some? ==> NoNewlineIn(t, r.value.from, r.value.to)
    ensures r.Some? ==> LitAt(t, p, pat.open)
    ensures LitAt(t, p, pat.open) ==>
      var q := p + |pat.open|;
      var g := GreedyEnd(t, q, pat.padded);
      && (r.Some? ==> q <= r.value.from <= g && LazyEnd(t, pat, r.value.from) == Some(r.value.to))
      && (forall s': nat :: q <= s' <= g && (r.None? || r.value.from < s') ==> LazyEnd(t, pat, s').None?)
  {
    if LitAt(t, p, pat.open) then
      var q := p + |pat.open|;
      LeadFrom(t, pat, p, q, GreedyEnd(t, q, pat.padded))
    else None
  }

  /** Any match at `p` is one of the ways the attempt at `p` explores: its
      group 1 starts between the end of `open` and the greedy end of the
      leading `\s*`, and the rest of the pattern matches after its end. */
  lemma AttemptCovers(t: string, pat: Pattern, p: nat, s: nat, e: nat, f: nat)
    requires p <= |t|
    ensures MatchWith(t, pat, p, s, e, f) ==>
      var q := p + |pat.open|;
      && q <= |t| && q <= s <= GreedyEnd(t, q, pat.padded)
      && e <= |t| && NoNewlineIn(t, s, e) && Closes(t, pat, e)
  {
    if MatchWith(t, pat, p, s, e, f) {
      var q := p + |pat.open|;
      GapUpToGreedyEnd(t, q, s, pat.padded);
      ClosesIntro(t, pat, e, f);
    }
  }

  /** The attempt at `p` fails exactly when no match begins at `p`. */
  lemma MatchAtNone(t: string, pat: Pattern, p: nat)
    requires p <= |t|
    ensures MatchAt(t, pat, p).None? <==> forall s: nat, e: nat, f: nat :: !MatchWith(t, pat, p, s, e, f)
  {
    var q := p + |pat.open|;
    if MatchAt(t, pat, p).None? {
      forall s: nat, e: nat, f: nat ensures !MatchWith(t, pat, p, s, e, f) {
        AttemptCovers(t, pat, p, s, e, f);
        assert LitAt(t, p, pat.open) && q <= s <= GreedyEnd(t, q, pat.padded) ==> LazyEnd(t, pat, s).None?;
      }
    } else {
      MatchAtSome(t, pat, p);
    }
  }

  /** When the attempt at `p` succeeds, it has found a match there. */
  lemma MatchAtSound(t: string, pat: Pattern, p: nat) returns (f: nat)
    requires p <= |t| && MatchAt(t, pat, p).Some?
    ensures var h := MatchAt(t, pat, p).value;
      MatchWith(t, pat, p, h.from, h.to, f)
  {
    var q := p + |pat.open|;
    var h := MatchAt(t, pat, p).value;
    assert LitAt(t, p, pat.open);
    assert q <= h.from <= GreedyEnd(t, q, pat.padded) && LazyEnd(t, pat, h.from) == Some(h.to);
    f := ClosesElim(t, pat, h.to);
    GapUpToGreedyEnd(t, q, h.from, pat.padded);
    assert Gap(t, q, h.from, pat.padded);
    assert h.from <= h.to <= |t| && NoNewlineIn(t, h.from, h.to);
    assert Gap(t, h.to, f, pat.padded) && LitAt(t, f, pat.close);
  }

  /** The match found at `p` has the longest leading `\s*` of all matches
      there. */
  lemma MatchAtGreedy(t: string, pat: Pattern, p: nat, s': nat, e': nat, f': nat)
    requires p <= |t| && MatchAt(t, pat, p).Some? && s' > MatchAt(t, pat, p).value.from
    ensures !MatchWith(t, pat, p, s', e', f')
  {
    var q := p + |pat.open|;
    var g := GreedyEnd(t, q, pat.padded);
    var h := MatchAt(t, pat, p).value;
    AttemptCovers(t, pat, p, s', e', f');
    assert LitAt(t, p, pat.open) && s' <= g ==> LazyEnd(t, pat, s').None?;
  }

  /** With that leading `\s*`, the match found at `p` has the shortest
      group 1 of all matches there. */
  lemma MatchAtLazy(t: string, pat: Pattern, p: nat, e': nat, f': nat)
    requires p <= |t| && MatchAt(t, pat, p).Some? && e' < MatchAt(t, pat, p).value.to
    ensures !MatchWith(t, pat, p, MatchAt(t, pat, p).value.from, e', f')
  {
    var q := p + |pat.open|;
    var h := MatchAt(t, pat, p).value;
    AttemptCovers(t, pat, p, h.from, e', f');
    assert h.from <= e' ==> !Closes(t, pat, e');
  }

  /** When the attempt at `p` succeeds, it finds a match there whose leading
      `\s*` is the longest possible and whose group 1 is then the shortest. */
  lemma MatchAtSome(t: string, pat: Pattern, p: nat)
    requires p <= |t| && MatchAt(t, pat, p).Some?
    ensures var h := MatchAt(t, pat, p).value;
      && (exists f: nat :: MatchWith(t, pat, p, h.from, h.to, f))
      && (forall s': nat, e': nat, f': nat :: s' > h.from ==> !MatchWith(t, pat, p, s', e', f'))
      && (forall e': nat, f': nat :: e' < h.to ==> !MatchWith(t, pat, p, h.from, e', f'))
  {
    var h := MatchAt(t, pat, p).value;
    var f := MatchAtSound(t, pat, p);
    forall s': nat, e': nat, f': nat | s' > h.from ensures !MatchWith(t, pat, p, s', e', f') {
      MatchAtGreedy(t, pat, p, s', e', f');
    }
    forall e': nat, f': nat | e' < h.to ensures !MatchWith(t, pat, p, h.from, e', f') {
      MatchAtLazy(t, pat, p, e', f');
    }
  }

  /** `re.search` from position `p` on: the first position `>= p` at which
      the attempt succeeds. Like Python, it also tries the position just past
      the end of `t`. */
  function SearchFrom(t: string, pat: Pattern, p: nat): (r: Option<Hit>)
    requires p <= |t|
    ensures r.Some? ==> p <= r.value.pos <= |t| && MatchAt(t, pat, r.value.pos) == r
    ensures forall p': nat :: p <= p' <= |t| && (r.None? || p' < r.value.pos) ==> MatchAt(t, pat, p').None?
    decreases |t| - p
  {
    var m := MatchAt(t, pat, p);
    if m.Some? then m
    else if p == |t| then None
    else SearchFrom(t, pat, p + 1)
  }

  /** `re.search(pattern, t)`. */
  function Search(t: string, pat: Pattern): (r: Option<Hit>)
    ensures r.Some? ==> r.value.from <= r.value.to <= |t| && NoNewlineIn(t, r.value.from, r.value.to)
  {
    SearchFrom(t, pat, 0)
  }

  /** The search fails exactly when the pattern matches nowhere, and otherwise
      reports the first match in Python's sense. */
  lemma {:induction false} SearchIsFirstMatch(t: string, pat: Pattern)
    ensures Search(t, pat).None? <==> !Matches(t, pat)
    ensures Search(t, pat).Some? ==>
      var h := Search(t, pat).value;
      IsFirstMatch(t, pat, h.pos, h.from, h.to)
  {
    var r := Search(t, pat);
    // Every match begins at a position where the attempt succeeds.
    forall p: nat, s: nat, e: nat, f: nat | MatchWith(t, pat, p, s, e, f)
      ensures p <= |t| && MatchAt(t, pat, p).Some?
    {
      MatchAtNone(t, pat, p);
    }
    match r
    case None =>
    case Some(h) =>
      MatchAtSome(t, pat, h.pos);
      forall p': nat, s': nat, e': nat, f': nat | p' < h.pos
        ensures !MatchWith(t, pat, p', s', e', f')
      {
        if p' <= |t| {
          MatchAtNone(t, pat, p');
        }
      }
  }

  /** `m.group(1).strip() if m else None` with `m = re.search(pattern, t)`. */
  function SearchStrip(t: string, pat: Pattern): (r: Option<string>)
  {
    match Search(t, pat)
    case None => None
    case Some(h) => Some(Strip(t[h.from..h.to]))
  }

  /** The extracted value, defined from the first match alone: absent exactly
      when nothing matches, and otherwise the stripped group 1 of the unique
      first match. */
  lemma SearchStripIsFirstMatch(t: string, pat: Pattern)
    ensures SearchStrip(t, pat).None? <==> !Matches(t, pat)
    ensures forall p: nat, s: nat, e: nat :: IsFirstMatch(t, pat, p, s, e) ==>
      s <= e <= |t| && SearchStrip(t, pat) == Some(Strip(t[s..e]))
  {
    SearchIsFirstMatch(t, pat);
    forall p: nat, s: nat, e: nat | IsFirstMatch(t, pat, p, s, e)
      ensures s <= e <= |t| && SearchStrip(t, pat) == Some(Strip(t[s..e]))
    {
      var f: nat :| MatchWith(t, pat, p, s, e, f);
      assert Matches(t, pat);
      var h := Search(t, pat).value;
      FirstMatchUnique(t, pat, p, s, e, h.pos, h.from, h.to);
    }
  }

  /** Laziness seen from the text: `close` does not begin anywhere inside
      group 1, since a shorter group 1 would then already complete the match. */
  lemma CaptureAvoidsClose(t: string, pat: Pattern)
    requires Search(t, pat).Some?
    ensures var h := Search(t, pat).value;
      forall k: nat :: h.from <= k < h.to ==> !LitAt(t, k, pat.close)
  {
    SearchIsFirstMatch(t, pat);
    var h := Search(t, pat).value;
    forall k: nat | h.from <= k < h.to ensures !LitAt(t, k, pat.close) {
      if LitAt(t, k, pat.close) {
        var f: nat :| MatchWith(t, pat, h.pos, h.from, h.to, f);
        assert MatchWith(t, pat, h.pos, h.from, k, k);
      }
    }
  }

  /** In a padded pattern a whitespace character at the front of group 1
      could go to the leading `\s*` instead. */
  lemma LeadCanGrow(t: string, pat: Pattern, p: nat, s: nat, e: nat, f: nat)
    ensures pat.padded && MatchWith(t, pat, p, s, e, f) && s < e && IsSpace(t[s]) ==>
      MatchWith(t, pat, p, s + 1, e, f)
  {
  }

  /** In a padded pattern a whitespace character at the back of group 1
      could go to the trailing `\s*` instead. */
  lemma CaptureCanShrink(t: string, pat: Pattern, p: nat, s: nat, e: nat, f: nat)
    ensures pat.padded && MatchWith(t, pat, p, s, e, f) && s < e && IsSpace(t[e - 1]) ==>
      MatchWith(t, pat, p, s, e - 1, f)
  {
  }

  /** For a padded pattern the first match's group 1 neither begins nor ends
      with whitespace: the greedy leading `\s*` takes all whitespace at its
      front, and the lazy capture leaves all whitespace at its back to the
      trailing `\s*`. */
  lemma FirstMatchTrimmed(t: string, pat: Pattern, p: nat, s: nat, e: nat)
    requires pat.padded && IsFirstMatch(t, pat, p, s, e)
    ensures s <= e <= |t|
    ensures s < e ==> !IsSpace(t[s]) && !IsSpace(t[e - 1])
  {
    var f: nat :| MatchWith(t, pat, p, s, e, f);
    LeadCanGrow(t, pat, p, s, e, f);
    if s < e {
      CaptureCanShrink(t, pat, p, s, e, f);
    }
  }

  /** So for a padded pattern `.strip()` changes nothing: the value is group 1
      of the first match exactly. */
  lemma PaddedCaptureIsStripped(t: string, pat: Pattern)
    requires pat.padded && Search(t, pat).Some?
    ensures var h := Search(t, pat).value;
      SearchStrip(t, pat) == Some(t[h.from..h.to])
  {
    SearchIsFirstMatch(t, pat);
    var h := Search(t, pat).value;
    FirstMatchTrimmed(t, pat, h.pos, h.from, h.to);
    StripSliceKeeps(t, h.from, h.to);
  }

  /** For a padded pattern, the extracted value is group 1 of the first
      match exactly. */
  lemma PaddedSearchStripIsFirstMatch(t: string, pat: Pattern, p: nat, s: nat, e: nat)
    requires pat.padded && IsFirstMatch(t, pat, p, s, e)
    ensures s <= e <= |t| && SearchStrip(t, pat) == Some(t[s..e])
  {
    SearchStripIsFirstMatch(t, pat);
    FirstMatchTrimmed(t, pat, p, s, e);
    StripSliceKeeps(t, s, e);
  }

  /** What an extracted value looks like: a slice of the text with no line
      feed in it (the lazy `.` stops at line ends) and no whitespace at
      either end. */
  lemma ExtractedShape(t: string, pat: Pattern)
    requires SearchStrip(t, pat).Some?
    ensures var v := SearchStrip(t, pat).value;
      && '\n' !in v
      && (v == [] || (!IsSpace(v[0]) && !IsSpace(v[|v| - 1])))
      && exists i: nat, j: nat :: i <= j <= |t| && v == t[i..j]
  {
    var h := Search(t, pat).value;
    var v := Strip(t[h.from..h.to]);
    var a, b := StripOfSlice(t, h.from, h.to);
    NoNewlineSlice(t, h.from, h.to, a, b);
    assert v == t[a..b];
  }
}
