/** `build_search_pattern`: the fuzzy pattern that finds a formula's characters in the
    extracted markdown. The pattern for characters c1 … cn is F c1 F c2 … F cn F, where
    every F is a greedy run of at most six filler characters (whitespace, `_`, `*`, `[`,
    `]`) and every ci is matched literally. The pattern is modelled twice: as the language
    it accepts (`Spells`) and as the backtracking matcher that the regular-expression engine
    runs (`Match`, `SearchFrom`); the two are proved to agree. */
module SearchPattern {
  import opened Results
  import opened Text

  /** The upper bound of each filler repetition. */
  const MaxFiller: nat := 6

  /** The filler class: whitespace (as `\s` matches it), `_`, `*`, `[` and `]`. */
  predicate IsFiller(c: char) {
    IsSpace(c) || c == '_' || c == '*' || c == '[' || c == ']'
  }

  /** A string one filler repetition can consume. */
  predicate FillerRun(f: string) {
    |f| <= MaxFiller && forall i :: 0 <= i < |f| ==> IsFiller(f[i])
  }

  /** The language of the pattern for `cs`: `s` is F0 c1 F1 … cn Fn with filler runs Fi. */
  ghost predicate Spells(cs: string, s: string)
    decreases |cs|
  {
    if cs == [] then FillerRun(s)
    else exists k :: 0 <= k < |s| && FillerRun(s[..k]) && s[k] == cs[0] && Spells(cs[1..], s[k + 1..])
  }

  /** A compiled pattern; it keeps the characters it anchors on. */
  datatype Pattern = Pattern(anchors: string)

  /** `build_search_pattern`: no pattern for fewer than two characters. */
  function BuildSearchPattern(raw: string): (r: Option<Pattern>)
    ensures r.None? <==> |raw| < 2
    ensures r.Some? ==> r.value.anchors == raw
  {
    if |raw| < 2 then None else Some(Pattern(raw))
  }

  /** How many filler characters a greedy repetition bounded by `cap` takes at position `i`. */
  function FillerCount(t: string, i: nat, cap: nat): (k: nat)
    requires i <= |t|
    ensures k <= cap && i + k <= |t|
    ensures forall j :: i <= j < i + k ==> IsFiller(t[j])
    ensures k < cap && i + k < |t| ==> !IsFiller(t[i + k])
    decreases cap
  {
    if cap == 0 || i == |t| || !IsFiller(t[i]) then 0 else 1 + FillerCount(t, i + 1, cap - 1)
  }

  /** The greedy repetition takes at least as many characters as any filler run it could take. */
  lemma {:induction false} FillerCountMaximal(t: string, i: nat, cap: nat, k: nat)
    requires k <= cap && i + k <= |t|
    requires forall j :: i <= j < i + k ==> IsFiller(t[j])
    ensures k <= FillerCount(t, i, cap)
    decreases cap
  {
    if k > 0 {
      assert IsFiller(t[i]);
      FillerCountMaximal(t, i + 1, cap - 1, k - 1);
    }
  }

  /** The backtracking matcher anchored at `i`: the end of the first match it finds. */
  function Match(cs: string, t: string, i: nat): (r: Option<nat>)
    requires i <= |t|
    ensures r.Some? ==> i <= r.value <= |t|
    decreases |cs|, 1, 0
  {
    TryCounts(cs, t, i, FillerCount(t, i, MaxFiller))
  }

  /** The leading filler takes `k` characters, then `k - 1`, … down to none, until the rest
      of the pattern matches. */
  function TryCounts(cs: string, t: string, i: nat, k: nat): (r: Option<nat>)
    requires i + k <= |t|
    ensures r.Some? ==> i <= r.value <= |t|
    decreases |cs|, 0, k
  {
    if cs == [] then Some(i + k)
    else
      var next := if i + k < |t| && t[i + k] == cs[0] then Match(cs[1..], t, i + k + 1) else None;
      if next.Some? then next
      else if k == 0 then None
      else TryCounts(cs, t, i, k - 1)
  }

  /** A match: its start and the position after its last character. */
  datatype Hit = Hit(start: nat, stop: nat)

  /** `pattern.search`: try the start positions from `p` onwards in order. */
  function SearchFrom(cs: string, t: string, p: nat): (r: Option<Hit>)
    requires p <= |t| + 1
    ensures r.Some? ==> p <= r.value.start <= r.value.stop <= |t|
    decreases |t| + 1 - p
  {
    if p > |t| then None
    else
      var m := Match(cs, t, p);
      if m.Some? then Some(Hit(p, m.value)) else SearchFrom(cs, t, p + 1)
  }

  function Search(cs: string, t: string): (r: Option<Hit>)
    ensures r.Some? ==> r.value.start <= r.value.stop <= |t|
  {
    SearchFrom(cs, t, 0)
  }

  /** Some match of the pattern starts at `q`. */
  ghost predicate MatchesAt(cs: string, t: string, q: nat) {
    exists e :: q <= e <= |t| && Spells(cs, t[q..e])
  }

  // Soundness: whatever the matcher returns is in the language.

  lemma {:induction false} MatchSound(cs: string, t: string, i: nat)
    requires i <= |t|
    ensures Match(cs, t, i).Some? ==> Spells(cs, t[i..Match(cs, t, i).value])
    decreases |cs|, 1, 0
  {
    TryCountsSound(cs, t, i, FillerCount(t, i, MaxFiller));
  }

  lemma {:induction false} TryCountsSound(cs: string, t: string, i: nat, k: nat)
    requires i + k <= |t| && k <= MaxFiller
    requires forall j :: i <= j < i + k ==> IsFiller(t[j])
    ensures TryCounts(cs, t, i, k).Some? ==> Spells(cs, t[i..TryCounts(cs, t, i, k).value])
    decreases |cs|, 0, k, 1
  {
    if cs == [] {
      assert FillerRun(t[i..i + k]);
    } else {
      TryCountsSoundStep(cs, t, i, k);
    }
  }

  lemma {:induction false} TryCountsSoundStep(cs: string, t: string, i: nat, k: nat)
    requires cs != [] && i + k <= |t| && k <= MaxFiller
    requires forall j :: i <= j < i + k ==> IsFiller(t[j])
    ensures TryCounts(cs, t, i, k).Some? ==> Spells(cs, t[i..TryCounts(cs, t, i, k).value])
    decreases |cs|, 0, k, 0
  {
    var next := if i + k < |t| && t[i + k] == cs[0] then Match(cs[1..], t, i + k + 1) else None;
    if next.Some? {
      MatchSound(cs[1..], t, i + k + 1);
      SpellsAnchoredAt(cs, t, i, k, next.value);
    } else if k > 0 {
      TryCountsSound(cs, t, i, k - 1);
    }
  }

  /** A filler run of `k` characters at `i`, the first anchor, then a string of the rest of
      the language up to `e`, spell the whole pattern from `i` to `e`. */
  lemma SpellsAnchoredAt(cs: string, t: string, i: nat, k: nat, e: nat)
    requires cs != [] && i + k < e <= |t| && k <= MaxFiller
    requires forall j :: i <= j < i + k ==> IsFiller(t[j])
    requires t[i + k] == cs[0] && Spells(cs[1..], t[i + k + 1..e])
    ensures Spells(cs, t[i..e])
  {
    var s := t[i..e];
    assert s[..k] == t[i..i + k];
    assert FillerRun(s[..k]);
    assert s[k] == cs[0];
    assert s[k + 1..] == t[i + k + 1..e];
  }

  // Completeness: if the language has a string starting at `i`, the matcher finds a match there.

  lemma {:induction false} MatchComplete(cs: string, t: string, i: nat, e: nat)
    requires i <= e <= |t| && Spells(cs, t[i..e])
    ensures Match(cs, t, i).Some?
    decreases |cs|, 1, 0
  {
    var avail := FillerCount(t, i, MaxFiller);
    if cs != [] {
      var s := t[i..e];
      var k :| 0 <= k < |s| && FillerRun(s[..k]) && s[k] == cs[0] && Spells(cs[1..], s[k + 1..]);
      assert forall j :: i <= j < i + k ==> t[j] == s[..k][j - i];
      FillerCountMaximal(t, i, MaxFiller, k);
      assert s[k + 1..] == t[i + k + 1..e];
      TryCountsComplete(cs, t, i, avail, k, e);
    }
  }

  lemma {:induction false} TryCountsComplete(cs: string, t: string, i: nat, m: nat, k: nat, e: nat)
    requires cs != [] && k <= m && i + m <= |t| && i + k < e <= |t|
    requires t[i + k] == cs[0] && Spells(cs[1..], t[i + k + 1..e])
    ensures TryCounts(cs, t, i, m).Some?
    decreases |cs|, 0, m
  {
    if m == k {
      MatchComplete(cs[1..], t, i + k + 1, e);
    } else {
      var next := if i + m < |t| && t[i + m] == cs[0] then Match(cs[1..], t, i + m + 1) else None;
      if next.None? {
        TryCountsComplete(cs, t, i, m - 1, k, e);
      }
    }
  }

  /** The matcher anchored at `q` succeeds exactly when some string of the language starts at `q`. */
  lemma MatchIff(cs: string, t: string, q: nat)
    requires q <= |t|
    ensures Match(cs, t, q).Some? <==> MatchesAt(cs, t, q)
  {
    if Match(cs, t, q).Some? {
      MatchSound(cs, t, q);
    }
    if MatchesAt(cs, t, q) {
      var e :| q <= e <= |t| && Spells(cs, t[q..e]);
      MatchComplete(cs, t, q, e);
    }
  }

  /** What `SearchFrom(cs, t, p)` finds: the leftmost match from `p` on, or nothing exactly
      when no match starts at `p` or later. */
  ghost predicate LeftmostFrom(cs: string, t: string, p: nat)
    requires p <= |t| + 1
  {
    && (SearchFrom(cs, t, p).Some? ==>
          var h := SearchFrom(cs, t, p).value;
          Spells(cs, t[h.start..h.stop]) && forall q :: p <= q < h.start ==> !MatchesAt(cs, t, q))
    && (SearchFrom(cs, t, p).None? <==> forall q :: p <= q <= |t| ==> !MatchesAt(cs, t, q))
  }

  lemma {:induction false} SearchFromLeftmost(cs: string, t: string, p: nat)
    requires p <= |t| + 1
    ensures LeftmostFrom(cs, t, p)
    decreases |t| + 1 - p
  {
    if p <= |t| {
      if Match(cs, t, p).None? {
        SearchFromLeftmost(cs, t, p + 1);
        SearchFromSkips(cs, t, p);
      } else {
        SearchFromFinds(cs, t, p);
      }
    }
  }

  lemma SearchFromFinds(cs: string, t: string, p: nat)
    requires p <= |t| && Match(cs, t, p).Some?
    ensures LeftmostFrom(cs, t, p)
  {
    MatchIff(cs, t, p);
    MatchSound(cs, t, p);
  }

  lemma SearchFromSkips(cs: string, t: string, p: nat)
    requires p <= |t| && Match(cs, t, p).None? && LeftmostFrom(cs, t, p + 1)
    ensures LeftmostFrom(cs, t, p)
  {
    MatchIff(cs, t, p);
    assert SearchFrom(cs, t, p) == SearchFrom(cs, t, p + 1);
  }

  /** `search` returns a string of the language, at the leftmost position where one starts. */
  lemma SearchLeftmost(cs: string, t: string)
    ensures Search(cs, t).Some? ==>
              var h := Search(cs, t).value;
              Spells(cs, t[h.start..h.stop]) && forall q :: 0 <= q < h.start ==> !MatchesAt(cs, t, q)
  {
    SearchFromLeftmost(cs, t, 0);
  }

  /** `search` finds nothing exactly when no substring of the text is in the language. */
  lemma SearchNoneIff(cs: string, t: string)
    ensures Search(cs, t).None? <==> forall q, e :: 0 <= q <= e <= |t| ==> !Spells(cs, t[q..e])
  {
    SearchFromLeftmost(cs, t, 0);
    if Search(cs, t).None? {
      forall q, e | 0 <= q <= e <= |t| ensures !Spells(cs, t[q..e]) {
        assert !MatchesAt(cs, t, q);
      }
    }
  }

  // Where a match ends.

  /** The match `[start, stop)` ends with its last anchor at `m - 1` (or, for no anchors, at
      `start`) followed by the filler run the greedy repetition takes from `m`. */
  ghost predicate GreedyEnd(cs: string, t: string, start: nat, stop: nat) {
    exists m :: start <= m <= |t| && FillerCount(t, m, MaxFiller) == stop - m
      && (cs == [] ==> m == start) && (cs != [] ==> start < m && t[m - 1] == cs[|cs| - 1])
  }

  lemma {:induction false} MatchEndsGreedily(cs: string, t: string, i: nat)
    requires i <= |t|
    ensures Match(cs, t, i).Some? ==> GreedyEnd(cs, t, i, Match(cs, t, i).value)
    decreases |cs|, 1, 0
  {
    var avail := FillerCount(t, i, MaxFiller);
    if cs == [] {
      assert Match(cs, t, i) == Some(i + avail);
      assert FillerCount(t, i, MaxFiller) == (i + avail) - i;
    } else {
      TryCountsEndsGreedily(cs, t, i, avail);
    }
  }

  lemma {:induction false} TryCountsEndsGreedily(cs: string, t: string, i: nat, k: nat)
    requires cs != [] && i + k <= |t|
    ensures TryCounts(cs, t, i, k).Some? ==> GreedyEnd(cs, t, i, TryCounts(cs, t, i, k).value)
    decreases |cs|, 0, k, 1
  {
    if i + k < |t| && t[i + k] == cs[0] && Match(cs[1..], t, i + k + 1).Some? {
      AnchorEndsGreedily(cs, t, i, k);
    } else if k > 0 {
      TryCountsEndsGreedily(cs, t, i, k - 1);
    }
  }

  /** The case where the first anchor matches after `k` filler characters. */
  lemma {:induction false} AnchorEndsGreedily(cs: string, t: string, i: nat, k: nat)
    requires cs != [] && i + k < |t| && t[i + k] == cs[0] && Match(cs[1..], t, i + k + 1).Some?
    ensures GreedyEnd(cs, t, i, TryCounts(cs, t, i, k).value)
    decreases |cs|, 0, k, 0
  {
    var j := i + k + 1;
    var e := Match(cs[1..], t, j).value;
    assert TryCounts(cs, t, i, k) == Some(e);
    MatchEndsGreedily(cs[1..], t, j);
    GreedyEndPrepend(cs, t, i, j, e);
  }

  /** The first anchor at `j - 1` in front of a match of the remaining anchors from `j`. */
  lemma GreedyEndPrepend(cs: string, t: string, i: nat, j: nat, e: nat)
    requires cs != [] && i < j <= |t| && t[j - 1] == cs[0] && GreedyEnd(cs[1..], t, j, e)
    ensures GreedyEnd(cs, t, i, e)
  {
    var m :| j <= m <= |t| && FillerCount(t, m, MaxFiller) == e - m
      && (cs[1..] == [] ==> m == j) && (cs[1..] != [] ==> j < m && t[m - 1] == cs[1..][|cs[1..]| - 1]);
    assert t[m - 1] == cs[|cs| - 1];
  }

  lemma {:induction false} SearchFromEndsGreedily(cs: string, t: string, p: nat)
    requires p <= |t| + 1
    ensures SearchFrom(cs, t, p).Some? ==>
              GreedyEnd(cs, t, SearchFrom(cs, t, p).value.start, SearchFrom(cs, t, p).value.stop)
    decreases |t| + 1 - p
  {
    if p <= |t| {
      MatchEndsGreedily(cs, t, p);
      if Match(cs, t, p).None? {
        SearchFromEndsGreedily(cs, t, p + 1);
      }
    }
  }

  /** Where `search` stops: after the last anchor at `m - 1` the match takes the filler run
      from `m` as far as it goes, so it stops at the end of the text, before a character that
      is not filler, or after the sixth filler character. */
  lemma SearchStopsGreedily(cs: string, t: string)
    ensures Search(cs, t).Some? ==>
              var h := Search(cs, t).value;
              exists m :: h.start <= m <= h.stop && FillerCount(t, m, MaxFiller) == h.stop - m
                && h.stop - m <= MaxFiller
                && (forall j :: m <= j < h.stop ==> IsFiller(t[j]))
                && (h.stop == |t| || !IsFiller(t[h.stop]) || h.stop - m == MaxFiller)
                && (cs == [] ==> m == h.start)
                && (cs != [] ==> h.start < m && t[m - 1] == cs[|cs| - 1])
  {
    SearchFromEndsGreedily(cs, t, 0);
    if Search(cs, t).Some? {
      var h := Search(cs, t).value;
      var m :| h.start <= m <= |t| && FillerCount(t, m, MaxFiller) == h.stop - m
        && (cs == [] ==> m == h.start) && (cs != [] ==> h.start < m && t[m - 1] == cs[|cs| - 1]);
      FillerRunStops(t, m, h.stop);
    }
  }

  /** The greedy filler run from `m` ends at the end of the text, before a character that is not
      filler, or after `MaxFiller` characters. */
  lemma FillerRunStops(t: string, m: nat, stop: nat)
    requires m <= |t| && FillerCount(t, m, MaxFiller) == stop - m
    ensures m <= stop <= m + MaxFiller
    ensures forall j :: m <= j < stop ==> IsFiller(t[j])
    ensures stop == |t| || !IsFiller(t[stop]) || stop - m == MaxFiller
  {
  }

  // Building strings of the language.

  /** Filler runs `fs[0]`, …, `fs[n]` with the anchors `cs[0]`, …, `cs[n - 1]` between
      them: the shape of every string of the language. */
  function Interleave(cs: string, fs: seq<string>): (s: string)
    requires |fs| == |cs| + 1
  {
    if cs == [] then fs[0] else fs[0] + [cs[0]] + Interleave(cs[1..], fs[1..])
  }

  /** A filler run and an anchor in front of a string of the language for the remaining
      anchors. */
  lemma SpellsPrepend(c: char, f: string, cs: string, s: string)
    requires FillerRun(f) && Spells(cs, s)
    ensures Spells([c] + cs, f + [c] + s)
  {
    var w := f + [c] + s;
    assert w[..|f|] == f && w[|f|] == c && w[|f| + 1..] == s;
    assert ([c] + cs)[1..] == cs;
  }

  lemma InterleaveCons(c: char, cs: string, fs: seq<string>)
    requires |fs| == |cs| + 2
    ensures Interleave([c] + cs, fs) == fs[0] + [c] + Interleave(cs, fs[1..])
  {
    assert ([c] + cs)[0] == c && ([c] + cs)[1..] == cs;
  }

  /** Every interleaving of the anchors with filler runs is in the language. */
  lemma {:induction false} InterleaveSpells(cs: string, fs: seq<string>)
    requires |fs| == |cs| + 1 && forall i :: 0 <= i < |fs| ==> FillerRun(fs[i])
    ensures Spells(cs, Interleave(cs, fs))
  {
    if cs != [] {
      InterleaveSpells(cs[1..], fs[1..]);
      SpellsPrepend(cs[0], fs[0], cs[1..], Interleave(cs[1..], fs[1..]));
      assert [cs[0]] + cs[1..] == cs;
    }
  }

  /** Every anchor character occurs in a string of the language, in order. */
  lemma {:induction false} SpellsHasAnchors(cs: string, s: string)
    ensures Spells(cs, s) ==> forall j :: 0 <= j < |cs| ==> cs[j] in s
    decreases |cs|
  {
    if cs != [] && Spells(cs, s) {
      var k :| 0 <= k < |s| && FillerRun(s[..k]) && s[k] == cs[0] && Spells(cs[1..], s[k + 1..]);
      SpellsHasAnchors(cs[1..], s[k + 1..]);
      AnchorsShift(cs, s, k);
    }
  }

  lemma AnchorsShift(cs: string, s: string, k: nat)
    requires cs != [] && k < |s| && s[k] == cs[0]
    requires forall j :: 0 <= j < |cs[1..]| ==> cs[1..][j] in s[k + 1..]
    ensures forall j :: 0 <= j < |cs| ==> cs[j] in s
  {
    forall j | 0 <= j < |cs| ensures cs[j] in s {
      if j > 0 {
        assert cs[j] == cs[1..][j - 1];
        var x :| 0 <= x < |s[k + 1..]| && s[k + 1..][x] == cs[j];
        assert s[k + 1 + x] == cs[j];
      }
    }
  }

  /** A text that lacks one of the anchor characters has no match. */
  lemma MissingAnchorNoMatch(cs: string, t: string, j: nat)
    requires j < |cs| && cs[j] !in t
    ensures Search(cs, t).None?
  {
    SearchNoneIff(cs, t);
    forall q, e | 0 <= q <= e <= |t| ensures !Spells(cs, t[q..e]) {
      assert forall x :: 0 <= x < |t[q..e]| ==> t[q..e][x] == t[q + x];
      assert cs[j] !in t[q..e];
      SpellsHasAnchors(cs, t[q..e]);
    }
  }

  lemma FormattedTextSpells()
    ensures Spells("x2+y2", "_x_ [2] + _y_ [2]")
  {
    var fs := ["_", "_ [", "] ", " _", "_ [", "]"];
    assert forall i :: 0 <= i < |fs| ==> FillerRun(fs[i]) by {
      assert IsSpace(' ');
    }
    InterleaveSpells("x2+y2", fs);
    InterleaveFormatted();
  }

  lemma InterleaveFormatted()
    ensures Interleave("x2+y2", ["_", "_ [", "] ", " _", "_ [", "]"]) == "_x_ [2] + _y_ [2]"
  {
  }

  /** The documented example: the pattern for "x2+y2" finds the markdown rendering with italic
      markers, superscript brackets and spaces. */
  lemma FormattedTextFound()
    ensures Search("x2+y2", "_x_ [2] + _y_ [2]").Some?
  {
    var t := "_x_ [2] + _y_ [2]";
    FormattedTextSpells();
    assert t[0..|t|] == t;
    SearchNoneIff("x2+y2", t);
  }

  /** The documented examples: no pattern for a single character, and the pattern for "abc"
      finds nothing in "xyz". */
  lemma SearchExamples()
    ensures BuildSearchPattern("x").None?
    ensures Search("abc", "xyz").None?
  {
    MissingAnchorNoMatch("abc", "xyz", 0);
  }

  /** The plain text "x2" is found in the middle of a sentence, and the surrounding spaces
      are swallowed by the leading and trailing filler. */
  lemma SwallowsAdjacentSpaces()
    ensures Search("x2", "a x2 b") == Some(Hit(1, 5))
  {
    var t := "a x2 b";
    assert t[0] == 'a' && !IsFiller('a');
    assert FillerCount(t, 0, MaxFiller) == 0;
    assert Match("x2", t, 0).None?;
    assert IsFiller(t[1]) && !IsFiller(t[2]);
    assert FillerCount(t, 1, MaxFiller) == 1;
    assert FillerCount(t, 3, MaxFiller) == 0;
    assert IsFiller(t[4]) && !IsFiller(t[5]);
    assert FillerCount(t, 4, MaxFiller) == 1;
    assert Match("", t, 4) == Some(5);
    assert Match("2", t, 3) == Some(5);
    assert Match("x2", t, 1) == Some(5);
  }
}
