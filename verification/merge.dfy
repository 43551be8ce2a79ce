/** `_merge_nearby_regions`: one greedy forward pass that glues horizontally adjacent
    fragments of one formula on the same visual line. */
module Merge {
  import opened Geometry
  import opened Regions

  /** Largest horizontal gap (in points) between two fragments that are still merged. */
  const MergeGapThreshold: real := 3.0

  /** Fraction of the shorter height the two fragments must overlap vertically, exceeded strictly. */
  const MinVerticalOverlap: real := 0.5

  function Height(b: Box): real { b.y1 - b.y0 }

  /** Length of the common part of the two boxes' vertical extents (0 when disjoint). */
  function VerticalOverlap(a: Box, b: Box): (r: real)
    ensures r >= 0.0
    ensures r <= Max(0.0, a.y1 - a.y0) && r <= Max(0.0, b.y1 - b.y0)
  {
    Max(0.0, Min(a.y1, b.y1) - Max(a.y0, b.y0))
  }

  /** The merge test: same page, positive shorter height, more than half of it shared
      vertically, and a horizontal gap below the threshold. */
  predicate CanMerge(cur: Region, next: Region) {
    var minHeight := Min(Height(cur.box), Height(next.box));
    && cur.page == next.page
    && minHeight > 0.0
    && VerticalOverlap(cur.box, next.box) / minHeight > MinVerticalOverlap
    && next.box.x0 - cur.box.x1 < MergeGapThreshold
  }

  /** The region that replaces two merged ones; it is a fresh region, so its `latex` is empty. */
  function Combine(cur: Region, next: Region): (r: Region)
    ensures r.page == cur.page
    ensures Contains(r.box, cur.box) && Contains(r.box, next.box)
    ensures forall c :: Contains(c, cur.box) && Contains(c, next.box) ==> Contains(c, r.box)
    ensures r.isDisplay <==> cur.isDisplay || next.isDisplay
    ensures r.spans == cur.spans + next.spans && r.rawChars == cur.rawChars + next.rawChars
    ensures r.latex == []
  {
    Region(cur.page, Union(cur.box, next.box), cur.isDisplay || next.isDisplay,
           cur.spans + next.spans, cur.rawChars + next.rawChars, [])
  }

  /** The pass from the accumulator `cur` over the regions still to visit. */
  function MergeFrom(cur: Region, rest: seq<Region>): (out: seq<Region>)
    ensures 1 <= |out| <= |rest| + 1
    decreases |rest|
  {
    if rest == [] then [cur]
    else if CanMerge(cur, rest[0]) then MergeFrom(Combine(cur, rest[0]), rest[1..])
    else [cur] + MergeFrom(rest[0], rest[1..])
  }

  /** `_merge_nearby_regions` with its default threshold. */
  function MergeRegions(rs: seq<Region>): (out: seq<Region>)
    ensures |out| <= |rs|
    ensures out == [] <==> rs == []
  {
    if rs == [] then [] else MergeFrom(rs[0], rs[1..])
  }

  /** All raw characters of a region list, in list order. */
  function AllRawChars(rs: seq<Region>): string
  {
    if rs == [] then [] else rs[0].rawChars + AllRawChars(rs[1..])
  }

  /** All runs of a region list, in list order. */
  function AllSpans(rs: seq<Region>): seq<Span>
  {
    if rs == [] then [] else rs[0].spans + AllSpans(rs[1..])
  }

  /** Raw characters of the regions on page `p`, in list order. */
  function PageRawChars(rs: seq<Region>, p: int): string
  {
    if rs == [] then [] else (if rs[0].page == p then rs[0].rawChars else []) + PageRawChars(rs[1..], p)
  }

  /** Runs of the regions on page `p`, in list order. */
  function PageSpans(rs: seq<Region>, p: int): seq<Span>
  {
    if rs == [] then [] else (if rs[0].page == p then rs[0].spans else []) + PageSpans(rs[1..], p)
  }

  lemma {:induction false} MergeFromKeepsContent(cur: Region, rest: seq<Region>)
    ensures AllRawChars(MergeFrom(cur, rest)) == cur.rawChars + AllRawChars(rest)
    ensures AllSpans(MergeFrom(cur, rest)) == cur.spans + AllSpans(rest)
    decreases |rest|
  {
    if rest != [] {
      if CanMerge(cur, rest[0]) {
        MergeFromKeepsContent(Combine(cur, rest[0]), rest[1..]);
      } else {
        MergeFromKeepsContent(rest[0], rest[1..]);
        var out := [cur] + MergeFrom(rest[0], rest[1..]);
        assert out[1..] == MergeFrom(rest[0], rest[1..]);
      }
    }
  }

  /** Merging neither loses, duplicates nor reorders characters or runs. */
  lemma MergeKeepsContent(rs: seq<Region>)
    ensures AllRawChars(MergeRegions(rs)) == AllRawChars(rs)
    ensures AllSpans(MergeRegions(rs)) == AllSpans(rs)
  {
    if rs != [] {
      MergeFromKeepsContent(rs[0], rs[1..]);
    }
  }

  lemma {:induction false} MergeFromKeepsPageRaw(cur: Region, rest: seq<Region>, p: int)
    ensures PageRawChars(MergeFrom(cur, rest), p) == (if cur.page == p then cur.rawChars else []) + PageRawChars(rest, p)
    decreases |rest|
  {
    if rest != [] {
      var own := if cur.page == p then cur.rawChars else [];
      var next := if rest[0].page == p then rest[0].rawChars else [];
      assert PageRawChars(rest, p) == next + PageRawChars(rest[1..], p);
      if CanMerge(cur, rest[0]) {
        var c := Combine(cur, rest[0]);
        MergeFromKeepsPageRaw(c, rest[1..], p);
        assert (if c.page == p then c.rawChars else []) == own + next;
      } else {
        MergeFromKeepsPageRaw(rest[0], rest[1..], p);
        var out := [cur] + MergeFrom(rest[0], rest[1..]);
        assert out[1..] == MergeFrom(rest[0], rest[1..]);
        assert PageRawChars(out, p) == own + PageRawChars(out[1..], p);
      }
    }
  }

  lemma {:induction false} MergeFromKeepsPageSpans(cur: Region, rest: seq<Region>, p: int)
    ensures PageSpans(MergeFrom(cur, rest), p) == (if cur.page == p then cur.spans else []) + PageSpans(rest, p)
    decreases |rest|
  {
    if rest != [] {
      var own := if cur.page == p then cur.spans else [];
      var next := if rest[0].page == p then rest[0].spans else [];
      assert PageSpans(rest, p) == next + PageSpans(rest[1..], p);
      if CanMerge(cur, rest[0]) {
        var c := Combine(cur, rest[0]);
        MergeFromKeepsPageSpans(c, rest[1..], p);
        assert (if c.page == p then c.spans else []) == own + next;
      } else {
        MergeFromKeepsPageSpans(rest[0], rest[1..], p);
        var out := [cur] + MergeFrom(rest[0], rest[1..]);
        assert out[1..] == MergeFrom(rest[0], rest[1..]);
        assert PageSpans(out, p) == own + PageSpans(out[1..], p);
      }
    }
  }

  /** Regions on different pages are never merged: page by page, the characters and runs
      are exactly those of the input regions on that page. */
  lemma MergeKeepsPageContent(rs: seq<Region>, p: int)
    ensures PageRawChars(MergeRegions(rs), p) == PageRawChars(rs, p)
    ensures PageSpans(MergeRegions(rs), p) == PageSpans(rs, p)
  {
    if rs != [] {
      MergeFromKeepsPageRaw(rs[0], rs[1..], p);
      MergeFromKeepsPageSpans(rs[0], rs[1..], p);
    }
  }

  /** `out` has a region on `r`'s page whose box covers `r`'s and that is a display
      region whenever `r` is. */
  predicate Covered(out: seq<Region>, r: Region) {
    exists k :: 0 <= k < |out| && out[k].page == r.page && Contains(out[k].box, r.box)
      && (r.isDisplay ==> out[k].isDisplay)
  }

  lemma {:induction false} MergeFromCovers(cur: Region, rest: seq<Region>)
    ensures Covered(MergeFrom(cur, rest), cur)
    ensures forall i :: 0 <= i < |rest| ==> Covered(MergeFrom(cur, rest), rest[i])
    decreases |rest|
  {
    var out := MergeFrom(cur, rest);
    if rest == [] {
      assert out[0] == cur;
    } else if CanMerge(cur, rest[0]) {
      var c := Combine(cur, rest[0]);
      MergeFromCovers(c, rest[1..]);
      var k :| 0 <= k < |out| && out[k].page == c.page && Contains(out[k].box, c.box) && (c.isDisplay ==> out[k].isDisplay);
      assert Covered(out, cur);
      assert Covered(out, rest[0]);
      forall i | 1 <= i < |rest| ensures Covered(out, rest[i]) {
        assert rest[i] == rest[1..][i - 1];
      }
    } else {
      var tail := MergeFrom(rest[0], rest[1..]);
      MergeFromCovers(rest[0], rest[1..]);
      assert out[0] == cur;
      forall r | Covered(tail, r) ensures Covered(out, r) {
        var k :| 0 <= k < |tail| && tail[k].page == r.page && Contains(tail[k].box, r.box) && (r.isDisplay ==> tail[k].isDisplay);
        assert out[k + 1] == tail[k];
      }
      forall i | 1 <= i < |rest| ensures Covered(out, rest[i]) {
        assert rest[i] == rest[1..][i - 1];
      }
    }
  }

  /** Every input region survives inside an output region on its own page, and display
      regions stay display. */
  lemma MergeCovers(rs: seq<Region>)
    ensures forall i :: 0 <= i < |rs| ==> Covered(MergeRegions(rs), rs[i])
  {
    if rs != [] {
      MergeFromCovers(rs[0], rs[1..]);
      forall i | 1 <= i < |rs| ensures Covered(MergeRegions(rs), rs[i]) {
        assert rs[i] == rs[1..][i - 1];
      }
    }
  }

  lemma {:induction false} MergeFromPages(cur: Region, rest: seq<Region>)
    ensures forall k :: 0 <= k < |MergeFrom(cur, rest)| ==>
              MergeFrom(cur, rest)[k].page == cur.page
              || exists i :: 0 <= i < |rest| && rest[i].page == MergeFrom(cur, rest)[k].page
    decreases |rest|
  {
    if rest != [] {
      if CanMerge(cur, rest[0]) {
        MergeFromPages(Combine(cur, rest[0]), rest[1..]);
        forall i | 0 <= i < |rest| - 1 ensures rest[1..][i] == rest[i + 1] { }
      } else {
        MergeFromPages(rest[0], rest[1..]);
        var out := [cur] + MergeFrom(rest[0], rest[1..]);
        forall k | 1 <= k < |out| ensures out[k] == MergeFrom(rest[0], rest[1..])[k - 1] { }
        forall i | 0 <= i < |rest| - 1 ensures rest[1..][i] == rest[i + 1] { }
      }
    }
  }

  /** Every region of `out` lies on a page that some region of `rs` lies on. */
  predicate PagesAmong(out: seq<Region>, rs: seq<Region>) {
    forall k :: 0 <= k < |out| ==> exists i :: 0 <= i < |rs| && rs[i].page == out[k].page
  }

  /** No region appears on a page that had no input region. */
  lemma MergePages(rs: seq<Region>)
    ensures PagesAmong(MergeRegions(rs), rs)
  {
    if rs != [] {
      var out := MergeFrom(rs[0], rs[1..]);
      MergeFromPages(rs[0], rs[1..]);
      forall k | 0 <= k < |out| ensures exists i :: 0 <= i < |rs| && rs[i].page == out[k].page {
        if out[k].page == rs[0].page {
          assert rs[0].page == out[k].page;
        } else {
          var i :| 0 <= i < |rs[1..]| && rs[1..][i].page == out[k].page;
          assert rs[i + 1].page == out[k].page;
        }
      }
    }
  }

  /** No two neighbours can be merged. */
  predicate NothingToMerge(rs: seq<Region>) {
    forall i :: 0 <= i < |rs| - 1 ==> !CanMerge(rs[i], rs[i + 1])
  }

  lemma {:induction false} MergeFromNothingToMerge(rs: seq<Region>)
    requires |rs| > 0 && NothingToMerge(rs)
    ensures MergeFrom(rs[0], rs[1..]) == rs
    decreases |rs|
  {
    if |rs| > 1 {
      assert !CanMerge(rs[0], rs[1]);
      var tail := rs[1..];
      assert NothingToMerge(tail) by {
        forall i | 0 <= i < |tail| - 1 ensures !CanMerge(tail[i], tail[i + 1]) {
          assert tail[i] == rs[i + 1] && tail[i + 1] == rs[i + 2];
        }
      }
      MergeFromNothingToMerge(tail);
      assert [rs[0]] + tail == rs;
    }
  }

  /** Regions that no neighbour can absorb are emitted as they are. */
  lemma MergeNothingToMerge(rs: seq<Region>)
    requires NothingToMerge(rs)
    ensures MergeRegions(rs) == rs
  {
    if rs != [] {
      MergeFromNothingToMerge(rs);
    }
  }

  /** Two regions become one exactly when the merge test holds, and the one is their combination. */
  lemma MergePair(a: Region, b: Region)
    ensures |MergeRegions([a, b])| == 1 <==> CanMerge(a, b)
    ensures CanMerge(a, b) ==> MergeRegions([a, b]) == [Combine(a, b)]
    ensures !CanMerge(a, b) ==> MergeRegions([a, b]) == [a, b]
  {
    assert [a, b][1..] == [b];
    assert [b][1..] == [];
    if CanMerge(a, b) {
      assert MergeFrom(a, [b]) == MergeFrom(Combine(a, b), []) == [Combine(a, b)];
    } else {
      assert MergeFrom(a, [b]) == [a] + MergeFrom(b, []) == [a, b];
    }
  }

  /** The documented examples: fragments 2 points apart on one line merge into their union;
      fragments far apart, or on different pages, stay separate. */
  lemma MergeExamples(sa: seq<Span>, sb: seq<Span>)
    ensures var r1 := Region(0, Box(10.0, 10.0, 50.0, 20.0), false, sa, "ab", []);
            var r2 := Region(0, Box(52.0, 10.0, 90.0, 20.0), false, sb, "cd", []);
            MergeRegions([r1, r2]) == [Region(0, Box(10.0, 10.0, 90.0, 20.0), false, sa + sb, "abcd", [])]
    ensures var r1 := Region(0, Box(10.0, 10.0, 50.0, 20.0), false, sa, "ab", []);
            var r2 := Region(0, Box(100.0, 10.0, 150.0, 20.0), false, sb, "cd", []);
            MergeRegions([r1, r2]) == [r1, r2]
    ensures var r1 := Region(0, Box(10.0, 10.0, 50.0, 20.0), false, sa, "ab", []);
            var r2 := Region(1, Box(52.0, 10.0, 90.0, 20.0), false, sb, "cd", []);
            MergeRegions([r1, r2]) == [r1, r2]
  {
    var r1 := Region(0, Box(10.0, 10.0, 50.0, 20.0), false, sa, "ab", []);
    var r2 := Region(0, Box(52.0, 10.0, 90.0, 20.0), false, sb, "cd", []);
    assert VerticalOverlap(r1.box, r2.box) == 10.0;
    assert CanMerge(r1, r2);
    assert Union(r1.box, r2.box) == Box(10.0, 10.0, 90.0, 20.0);
    assert "ab" + "cd" == "abcd";
    MergePair(r1, r2);
    var r3 := Region(0, Box(100.0, 10.0, 150.0, 20.0), false, sb, "cd", []);
    assert !CanMerge(r1, r3);
    MergePair(r1, r3);
    var r4 := Region(1, Box(52.0, 10.0, 90.0, 20.0), false, sb, "cd", []);
    assert !CanMerge(r1, r4);
    MergePair(r1, r4);
  }

  /** No region of the list carries LaTeX yet. */
  predicate NoLatexYet(rs: seq<Region>) {
    forall k :: 0 <= k < |rs| ==> rs[k].latex == []
  }

  lemma {:induction false} MergeFromNoLatex(cur: Region, rest: seq<Region>)
    requires cur.latex == [] && NoLatexYet(rest)
    ensures NoLatexYet(MergeFrom(cur, rest))
    decreases |rest|
  {
    if rest != [] {
      assert rest[0].latex == [];
      if CanMerge(cur, rest[0]) {
        MergeFromNoLatex(Combine(cur, rest[0]), rest[1..]);
      } else {
        MergeFromNoLatex(rest[0], rest[1..]);
        var tail := MergeFrom(rest[0], rest[1..]);
        forall k | 1 <= k < |[cur] + tail| ensures ([cur] + tail)[k] == tail[k - 1] { }
      }
    }
  }

  /** Merging fresh regions gives fresh regions: the result carries no LaTeX either. */
  lemma MergeKeepsNoLatex(rs: seq<Region>)
    requires NoLatexYet(rs)
    ensures NoLatexYet(MergeRegions(rs))
  {
    if rs != [] {
      MergeFromNoLatex(rs[0], rs[1..]);
    }
  }
}
