/** `patch_markdown`: splice the recognised LaTeX of each region into the markdown of its
    page, longest formulas first, and join the pages with newlines. */
module Patch {
  import opened Results
  import opened Text
  import opened Regions
  import opened SearchPattern

  // ---------------------------------------------------------------------------------------
  // The per-page order: a stable sort by descending raw-character count.

  function Key(r: Region): nat { |r.rawChars| }

  predicate SortedDesc(rs: seq<Region>) {
    forall i, j :: 0 <= i < j < |rs| ==> Key(rs[i]) >= Key(rs[j])
  }

  /** Puts `x` in front of the first element whose key is not larger than its own, so that it
      stays ahead of the elements of equal key that came after it in the input. */
  function Insert(x: Region, s: seq<Region>): (r: seq<Region>)
    ensures |r| == |s| + 1
  {
    if s == [] then [x]
    else if Key(s[0]) > Key(x) then [s[0]] + Insert(x, s[1..])
    else [x] + s
  }

  /** `list.sort(key=len(raw_chars), reverse=True)`, which Python keeps stable. */
  function SortByRawLen(rs: seq<Region>): (out: seq<Region>)
    ensures |out| == |rs|
  {
    if rs == [] then [] else Insert(rs[0], SortByRawLen(rs[1..]))
  }

  lemma {:induction false} InsertPermutes(x: Region, s: seq<Region>)
    ensures multiset(Insert(x, s)) == multiset(s) + multiset{x}
  {
    if s != [] {
      assert s == [s[0]] + s[1..];
      if Key(s[0]) > Key(x) {
        InsertPermutes(x, s[1..]);
      }
    }
  }

  /** Keys bounded by `b` stay bounded after an insertion. */
  lemma {:induction false} InsertBounded(x: Region, s: seq<Region>, b: nat)
    requires Key(x) <= b && forall k :: 0 <= k < |s| ==> Key(s[k]) <= b
    ensures forall k :: 0 <= k < |Insert(x, s)| ==> Key(Insert(x, s)[k]) <= b
  {
    if s != [] && Key(s[0]) > Key(x) {
      InsertBounded(x, s[1..], b);
      var r := Insert(x, s);
      assert forall k :: 1 <= k < |r| ==> r[k] == Insert(x, s[1..])[k - 1];
    }
  }

  lemma {:induction false} InsertSorted(x: Region, s: seq<Region>)
    requires SortedDesc(s)
    ensures SortedDesc(Insert(x, s))
  {
    if s != [] {
      if Key(s[0]) > Key(x) {
        var tail := Insert(x, s[1..]);
        InsertSorted(x, s[1..]);
        InsertBounded(x, s[1..], Key(s[0]));
        var r := [s[0]] + tail;
        forall i, j | 0 <= i < j < |r| ensures Key(r[i]) >= Key(r[j]) {
          assert r[j] == tail[j - 1];
          if i > 0 {
            assert r[i] == tail[i - 1];
          }
        }
      } else {
        var r := [x] + s;
        forall i, j | 0 <= i < j < |r| ensures Key(r[i]) >= Key(r[j]) {
          assert r[j] == s[j - 1];
          if i > 0 {
            assert r[i] == s[i - 1];
          }
        }
      }
    }
  }

  /** The order is a permutation of the page's regions, by non-increasing raw-character count. */
  lemma {:induction false} SortPermutesAndOrders(rs: seq<Region>)
    ensures multiset(SortByRawLen(rs)) == multiset(rs)
    ensures SortedDesc(SortByRawLen(rs))
  {
    if rs != [] {
      SortPermutesAndOrders(rs[1..]);
      InsertPermutes(rs[0], SortByRawLen(rs[1..]));
      InsertSorted(rs[0], SortByRawLen(rs[1..]));
      assert rs == [rs[0]] + rs[1..];
    }
  }

  /** The regions of key `n`, in order. */
  function WithKey(rs: seq<Region>, n: nat): seq<Region>
  {
    if rs == [] then [] else (if Key(rs[0]) == n then [rs[0]] else []) + WithKey(rs[1..], n)
  }

  lemma {:induction false} InsertWithKey(x: Region, s: seq<Region>, n: nat)
    ensures WithKey(Insert(x, s), n) == (if Key(x) == n then [x] else []) + WithKey(s, n)
  {
    if s != [] && Key(s[0]) > Key(x) {
      InsertWithKey(x, s[1..], n);
      var tail := Insert(x, s[1..]);
      assert ([s[0]] + tail)[1..] == tail;
    } else if s != [] {
      assert ([x] + s)[1..] == s;
    }
  }

  /** The sort is stable: regions with equal raw-character counts keep their input order. */
  lemma {:induction false} SortIsStable(rs: seq<Region>, n: nat)
    ensures WithKey(SortByRawLen(rs), n) == WithKey(rs, n)
  {
    if rs != [] {
      SortIsStable(rs[1..], n);
      InsertWithKey(rs[0], SortByRawLen(rs[1..]), n);
    }
  }

  // ---------------------------------------------------------------------------------------
  // One region.

  /** The replacement text: the stripped LaTeX between `$$` for display, `$` for inline. */
  function Delimited(r: Region): string
  {
    var latex := Strip(r.latex);
    if r.isDisplay then "$$" + latex + "$$" else "$" + latex + "$"
  }

  /** The region carries usable LaTeX (non-empty after stripping). */
  predicate HasLatex(r: Region) {
    Strip(r.latex) != []
  }

  /** One step of the loop: the first match of the region's pattern replaced by its LaTeX;
      the text is left alone when the LaTeX is blank or there is no pattern. */
  function PatchOne(text: string, r: Region): (out: string)
    ensures !HasLatex(r) || |r.rawChars| < 2 ==> out == text
  {
    if !HasLatex(r) then text
    else
      var pat := BuildSearchPattern(r.rawChars);
      if pat.None? then text
      else
        var hit := Search(pat.value.anchors, text);
        if hit.None? then text
        else text[..hit.value.start] + Delimited(r) + text[hit.value.stop..]
  }

  /** In terms of the pattern's language: with usable LaTeX and a pattern, the text is left
      alone when no substring spells the raw characters, and otherwise the leftmost such
      substring is replaced by the delimited LaTeX; that substring ends after its last anchor
      with the longest filler run the repetition allows. */
  lemma PatchOneReplacesLeftmost(text: string, r: Region)
    requires HasLatex(r) && |r.rawChars| >= 2
    ensures (forall q, e :: 0 <= q <= e <= |text| ==> !Spells(r.rawChars, text[q..e])) ==> PatchOne(text, r) == text
    ensures (exists q, e :: 0 <= q <= e <= |text| && Spells(r.rawChars, text[q..e])) ==>
              exists p, e :: 0 <= p <= e <= |text| && Spells(r.rawChars, text[p..e])
                && (forall q :: 0 <= q < p ==> !MatchesAt(r.rawChars, text, q))
                && GreedyEnd(r.rawChars, text, p, e)
                && PatchOne(text, r) == text[..p] + Delimited(r) + text[e..]
  {
    SearchNoneIff(r.rawChars, text);
    SearchLeftmost(r.rawChars, text);
    SearchFromEndsGreedily(r.rawChars, text, 0);
  }

  /** The regions of one page applied in turn. */
  function PatchPage(text: string, rs: seq<Region>): (out: string)
    ensures (forall k :: 0 <= k < |rs| ==> !HasLatex(rs[k])) ==> out == text
    decreases |rs|
  {
    if rs == [] then text else PatchPage(PatchOne(text, rs[0]), rs[1..])
  }

  /** The regions of page `p`, in input order (`regions_by_page`). */
  function OnPage(rs: seq<Region>, p: int): (r: seq<Region>)
    ensures forall k :: 0 <= k < |r| ==> r[k].page == p
  {
    if rs == [] then [] else (if rs[0].page == p then [rs[0]] else []) + OnPage(rs[1..], p)
  }

  /** The patched markdown of every page, in page order. */
  function PatchedPages(pages: seq<string>, regions: seq<Region>): (r: seq<string>)
    ensures |r| == |pages|
  {
    seq(|pages|, i requires 0 <= i < |pages| => PatchPage(pages[i], SortByRawLen(OnPage(regions, i))))
  }

  /** `patch_markdown`. */
  function PatchMarkdown(pages: seq<string>, regions: seq<Region>): string
  {
    Join(PatchedPages(pages, regions), "\n")
  }

  // ---------------------------------------------------------------------------------------
  // Properties.

  /** Regions without usable LaTeX change nothing: dropping them gives the same page. */
  lemma {:induction false} BlankRegionsSkipped(text: string, rs: seq<Region>)
    ensures PatchPage(text, rs) == PatchPage(text, WithLatex(rs))
    decreases |rs|
  {
    if rs != [] {
      var w := WithLatex(rs);
      if HasLatex(rs[0]) {
        BlankRegionsSkipped(PatchOne(text, rs[0]), rs[1..]);
        assert w == [rs[0]] + WithLatex(rs[1..]);
        assert w[0] == rs[0] && w[1..] == WithLatex(rs[1..]);
        assert PatchPage(text, w) == PatchPage(PatchOne(text, rs[0]), w[1..]);
      } else {
        BlankRegionsSkipped(text, rs[1..]);
        assert PatchOne(text, rs[0]) == text;
        assert w == WithLatex(rs[1..]);
      }
    }
  }

  function WithLatex(rs: seq<Region>): (r: seq<Region>)
    ensures forall k :: 0 <= k < |r| ==> HasLatex(r[k])
  {
    if rs == [] then [] else (if HasLatex(rs[0]) then [rs[0]] else []) + WithLatex(rs[1..])
  }

  /** A page none of whose regions has usable LaTeX is left byte-identical. */
  lemma NoLatexNoChange(text: string, rs: seq<Region>)
    requires forall k :: 0 <= k < |rs| ==> !HasLatex(rs[k])
    ensures PatchPage(text, rs) == text
  {
    BlankRegionsSkipped(text, rs);
    NoneWithLatex(rs);
  }

  lemma {:induction false} NoneWithLatex(rs: seq<Region>)
    requires forall k :: 0 <= k < |rs| ==> !HasLatex(rs[k])
    ensures WithLatex(rs) == []
  {
    if rs != [] {
      NoneWithLatex(rs[1..]);
    }
  }

  /** A page without regions is passed through unchanged. */
  lemma PageWithoutRegions(pages: seq<string>, regions: seq<Region>, i: nat)
    requires i < |pages|
    requires forall k :: 0 <= k < |regions| ==> regions[k].page != i
    ensures PatchedPages(pages, regions)[i] == pages[i]
  {
    NoneOnPage(regions, i);
  }

  lemma {:induction false} NoneOnPage(rs: seq<Region>, p: int)
    requires forall k :: 0 <= k < |rs| ==> rs[k].page != p
    ensures OnPage(rs, p) == []
  {
    if rs != [] {
      NoneOnPage(rs[1..], p);
    }
  }

  /** Without regions the output is the pages joined by newlines. */
  lemma NoRegionsJoinsPages(pages: seq<string>)
    ensures PatchMarkdown(pages, []) == Join(pages, "\n")
  {
    var out := PatchedPages(pages, []);
    forall i | 0 <= i < |pages| ensures out[i] == pages[i] {
      PageWithoutRegions(pages, [], i);
    }
    assert out == pages;
  }

  /** The regions whose page lies in `0 .. n - 1`. */
  function InRange(rs: seq<Region>, n: nat): seq<Region>
  {
    if rs == [] then [] else (if 0 <= rs[0].page < n then [rs[0]] else []) + InRange(rs[1..], n)
  }

  lemma {:induction false} OnPageInRange(rs: seq<Region>, n: nat, p: int)
    requires 0 <= p < n
    ensures OnPage(InRange(rs, n), p) == OnPage(rs, p)
  {
    if rs != [] {
      OnPageInRange(rs[1..], n, p);
      var head := if 0 <= rs[0].page < n then [rs[0]] else [];
      OnPageConcat(head, InRange(rs[1..], n), p);
      if 0 <= rs[0].page < n {
        assert OnPage(head, p) == (if rs[0].page == p then [rs[0]] else []) by {
          assert head[1..] == [];
        }
      }
    }
  }

  lemma {:induction false} OnPageConcat(a: seq<Region>, b: seq<Region>, p: int)
    ensures OnPage(a + b, p) == OnPage(a, p) + OnPage(b, p)
  {
    if a == [] {
      assert a + b == b;
    } else {
      assert (a + b)[0] == a[0];
      assert (a + b)[1..] == a[1..] + b;
      OnPageConcat(a[1..], b, p);
    }
  }

  /** Regions whose page number is outside the page list are ignored. */
  lemma OutOfRangeIgnored(pages: seq<string>, regions: seq<Region>)
    ensures PatchMarkdown(pages, regions) == PatchMarkdown(pages, InRange(regions, |pages|))
  {
    var a := PatchedPages(pages, regions);
    var b := PatchedPages(pages, InRange(regions, |pages|));
    forall i | 0 <= i < |pages| ensures a[i] == b[i] {
      OnPageInRange(regions, |pages|, i);
    }
    assert a == b;
  }

  /** A page's patch depends only on the regions of that page. */
  lemma OtherPagesIrrelevant(pages: seq<string>, regions: seq<Region>, i: nat)
    requires i < |pages|
    ensures PatchedPages(pages, regions)[i] == PatchedPages(pages, OnPage(regions, i))[i]
  {
    OnPageTwice(regions, i);
  }

  lemma {:induction false} OnPageTwice(rs: seq<Region>, p: int)
    ensures OnPage(OnPage(rs, p), p) == OnPage(rs, p)
  {
    if rs != [] {
      OnPageTwice(rs[1..], p);
      var head := if rs[0].page == p then [rs[0]] else [];
      OnPageConcat(head, OnPage(rs[1..], p), p);
      if rs[0].page == p {
        assert OnPage(head, p) == head by {
          assert head[1..] == [];
        }
      }
    }
  }

  /** A single region on the only page is applied to that page alone. */
  lemma SinglePage(page: string, r: Region)
    requires r.page == 0
    ensures PatchMarkdown([page], [r]) == PatchOne(page, r)
  {
    assert [r][1..] == [];
    assert OnPage([r], 0) == [r];
    assert SortByRawLen([r]) == [r];
    assert PatchPage(page, [r]) == PatchOne(page, r);
    assert PatchedPages([page], [r]) == [PatchOne(page, r)];
  }

  /** When the region has usable LaTeX and its pattern occurs, the delimited LaTeX appears in
      the result. */
  lemma PatchedTextContains(text: string, r: Region, q: nat, e: nat)
    requires HasLatex(r) && |r.rawChars| >= 2
    requires q <= e <= |text| && Spells(r.rawChars, text[q..e])
    ensures exists p :: OccursAt(PatchOne(text, r), Delimited(r), p)
  {
    PatchOneReplacesLeftmost(text, r);
    var out := PatchOne(text, r);
    var p, e' :| 0 <= p <= e' <= |text| && Spells(r.rawChars, text[p..e'])
                 && out == text[..p] + Delimited(r) + text[e'..];
    assert out[p..p + |Delimited(r)|] == Delimited(r);
    assert OccursAt(out, Delimited(r), p);
  }

  // ---------------------------------------------------------------------------------------
  // The documented examples.

  /** Wherever a string of the pattern's language occurs in a one-page document, the
      delimited LaTeX of a usable region on that page occurs in the output. */
  lemma RenderingPatched(pre: string, u: string, post: string, r: Region)
    requires r.page == 0 && HasLatex(r) && |r.rawChars| >= 2 && Spells(r.rawChars, u)
    ensures exists p :: OccursAt(PatchMarkdown([pre + u + post], [r]), Delimited(r), p)
  {
    var page := pre + u + post;
    assert page[|pre|..|pre| + |u|] == u;
    PatchedTextContains(page, r, |pre|, |pre| + |u|);
    SinglePage(page, r);
  }

  /** LaTeX that is already stripped is delimited as it stands. */
  lemma DelimitedStripped(r: Region)
    requires Strip(r.latex) == r.latex
    ensures Delimited(r) == if r.isDisplay then "$$" + r.latex + "$$" else "$" + r.latex + "$"
  {
  }

  /** An inline formula rendered as `_x_ [2] + _y_ [2]` anywhere in the page is replaced by
      its LaTeX (for instance `x^2 + y^2`) between single dollars. */
  lemma InlineExample(pre: string, post: string, latex: string, b: Geometry.Box, spans: seq<Span>)
    requires latex != [] && !IsSpace(latex[0]) && !IsSpace(latex[|latex| - 1])
    ensures var r := Region(0, b, false, spans, "x2+y2", latex);
            exists p :: OccursAt(PatchMarkdown([pre + "_x_ [2] + _y_ [2]" + post], [r]), "$" + latex + "$", p)
  {
    var r := Region(0, b, false, spans, "x2+y2", latex);
    StripUnchanged(latex);
    DelimitedStripped(r);
    FormattedTextSpells();
    RenderingPatched(pre, "_x_ [2] + _y_ [2]", post, r);
  }

  /** The same rendering in a display region is replaced by its LaTeX between double dollars. */
  lemma DisplayExample(pre: string, post: string, latex: string, b: Geometry.Box, spans: seq<Span>)
    requires latex != [] && !IsSpace(latex[0]) && !IsSpace(latex[|latex| - 1])
    ensures var r := Region(0, b, true, spans, "x2+y2", latex);
            exists p :: OccursAt(PatchMarkdown([pre + "_x_ [2] + _y_ [2]" + post], [r]), "$$" + latex + "$$", p)
  {
    var r := Region(0, b, true, spans, "x2+y2", latex);
    StripUnchanged(latex);
    DelimitedStripped(r);
    FormattedTextSpells();
    RenderingPatched(pre, "_x_ [2] + _y_ [2]", post, r);
  }

  /** A region without LaTeX leaves its page byte-identical. */
  lemma RegionWithoutLatexSkipped(page: string, b: Geometry.Box, spans: seq<Span>, raw: string)
    ensures PatchMarkdown([page], [Region(0, b, false, spans, raw, "")]) == page
  {
    SinglePage(page, Region(0, b, false, spans, raw, ""));
  }

  /** A region one of whose characters does not occur in the page leaves it byte-identical. */
  lemma UnmatchedRegionSkipped(page: string, r: Region, j: nat)
    requires r.page == 0 && j < |r.rawChars| && r.rawChars[j] !in page
    ensures PatchMarkdown([page], [r]) == page
  {
    SinglePage(page, r);
    MissingAnchorNoMatch(r.rawChars, page, j);
    if HasLatex(r) && |r.rawChars| >= 2 {
      SearchNoneIff(r.rawChars, page);
      PatchOneReplacesLeftmost(page, r);
    }
  }

  /** Without regions, two pages are joined by one newline. */
  lemma TwoPagesJoined()
    ensures PatchMarkdown(["Page 1 content", "Page 2 content"], []) == "Page 1 content\nPage 2 content"
  {
    NoRegionsJoinsPages(["Page 1 content", "Page 2 content"]);
    assert ["Page 1 content", "Page 2 content"][1..] == ["Page 2 content"];
  }

  /** Every region listed for a page comes from the input list. */
  lemma {:induction false} OnPageFrom(rs: seq<Region>, p: int)
    ensures forall k :: 0 <= k < |OnPage(rs, p)| ==> OnPage(rs, p)[k] in rs
  {
    if rs != [] {
      OnPageFrom(rs[1..], p);
      var head := if rs[0].page == p then [rs[0]] else [];
      forall k | 0 <= k < |OnPage(rs, p)| ensures OnPage(rs, p)[k] in rs {
        if k >= |head| {
          assert OnPage(rs, p)[k] == OnPage(rs[1..], p)[k - |head|];
        }
      }
    }
  }

  /** When no region carries usable LaTeX the output is the pages joined by newlines. */
  lemma NoLatexJoinsPages(pages: seq<string>, regions: seq<Region>)
    requires forall k :: 0 <= k < |regions| ==> !HasLatex(regions[k])
    ensures PatchMarkdown(pages, regions) == Join(pages, "\n")
  {
    var out := PatchedPages(pages, regions);
    forall i | 0 <= i < |pages| ensures out[i] == pages[i] {
      var sorted := SortByRawLen(OnPage(regions, i));
      OnPageFrom(regions, i);
      SortPermutesAndOrders(OnPage(regions, i));
      forall k | 0 <= k < |sorted| ensures !HasLatex(sorted[k]) {
        assert sorted[k] in multiset(OnPage(regions, i));
      }
      NoLatexNoChange(pages[i], sorted);
    }
    assert out == pages;
  }
}
