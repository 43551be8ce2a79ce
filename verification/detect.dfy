/** `detect_formula_regions`: the scan of a page layout that groups consecutive math-font
    runs of each line, builds a region per group and merges nearby regions. */
module Detection {
  import opened Results
  import opened Regions
  import opened Merge

  /** One layout block. `kind` is the block's `type` entry (absent reads as None); only
      kind 0, text, is scanned. A text block is a list of lines, each a list of runs. */
  datatype Block = Block(kind: Option<int>, lines: seq<seq<Span>>)

  /** The layout of one page: its 0-based number, its width in points and its blocks. */
  datatype PageLayout = PageLayout(number: int, width: real, blocks: seq<Block>)

  predicate IsTextBlock(b: Block) {
    b.kind == Some(0)
  }

  predicate AllMath(spans: seq<Span>) {
    forall i :: 0 <= i < |spans| ==> IsMathSpan(spans[i])
  }

  /** The math runs of `spans`, in order. */
  function MathSpans(spans: seq<Span>): (r: seq<Span>)
    ensures AllMath(r)
  {
    if spans == [] then []
    else (if IsMathSpan(spans[0]) then [spans[0]] else []) + MathSpans(spans[1..])
  }

  function Flatten<T>(gs: seq<seq<T>>): seq<T>
  {
    if gs == [] then [] else gs[0] + Flatten(gs[1..])
  }

  /** The groups of a list without its empty groups. */
  function NonEmpty<T>(gs: seq<seq<T>>): (r: seq<seq<T>>)
    ensures forall k :: 0 <= k < |r| ==> r[k] != []
  {
    if gs == [] then []
    else (if gs[0] == [] then [] else [gs[0]]) + NonEmpty(gs[1..])
  }

  /** The reference grouping: the line cut at every non-math run, like a string split at a
      separator; the pieces may be empty. */
  function Pieces(spans: seq<Span>): (ps: seq<seq<Span>>)
    ensures |ps| >= 1
  {
    if spans == [] then [[]]
    else if IsMathSpan(spans[0]) then
      var ps := Pieces(spans[1..]);
      [[spans[0]] + ps[0]] + ps[1..]
    else [[]] + Pieces(spans[1..])
  }

  /** The grouping loop over the runs of one line. `cur` is the open group of math runs; a
      non-math run closes it and the end of the line flushes it. Returns the closed,
      non-empty groups in order. */
  function Groups(spans: seq<Span>, cur: seq<Span>): (gs: seq<seq<Span>>)
    ensures forall k :: 0 <= k < |gs| ==> gs[k] != []
    decreases |spans|
  {
    if spans == [] then (if cur == [] then [] else [cur])
    else if IsMathSpan(spans[0]) then Groups(spans[1..], cur + [spans[0]])
    else (if cur == [] then [] else [cur]) + Groups(spans[1..], [])
  }

  lemma {:induction false} NonEmptyConcat<T>(a: seq<seq<T>>, b: seq<seq<T>>)
    ensures NonEmpty(a + b) == NonEmpty(a) + NonEmpty(b)
  {
    if a == [] {
      assert a + b == b;
    } else {
      assert (a + b)[1..] == a[1..] + b;
      NonEmptyConcat(a[1..], b);
    }
  }

  lemma {:induction false} GroupsArePieces(spans: seq<Span>, cur: seq<Span>)
    ensures Groups(spans, cur) == NonEmpty([cur + Pieces(spans)[0]] + Pieces(spans)[1..])
    decreases |spans|
  {
    if spans == [] {
      assert cur + [] == cur;
      assert NonEmpty([cur]) == (if cur == [] then [] else [cur]);
    } else if IsMathSpan(spans[0]) {
      var ps := Pieces(spans[1..]);
      GroupsArePieces(spans[1..], cur + [spans[0]]);
      assert cur + [spans[0]] + ps[0] == cur + ([spans[0]] + ps[0]);
    } else {
      var ps := Pieces(spans[1..]);
      GroupsArePieces(spans[1..], []);
      assert [] + ps[0] == ps[0];
      assert [ps[0]] + ps[1..] == ps;
      assert Pieces(spans) == [[]] + ps;
      assert cur + [] == cur;
      NonEmptyConcat([cur], ps);
      assert NonEmpty([cur]) == (if cur == [] then [] else [cur]);
    }
  }

  /** The loop finds exactly the non-empty pieces of the line cut at its non-math runs. */
  lemma GroupsAreMathRuns(line: seq<Span>)
    ensures Groups(line, []) == NonEmpty(Pieces(line))
  {
    GroupsArePieces(line, []);
    var ps := Pieces(line);
    var empty: seq<Span> := [];
    assert empty + ps[0] == ps[0];
    assert [ps[0]] + ps[1..] == ps;
  }

  lemma {:induction false} PiecesAreMath(spans: seq<Span>)
    ensures forall k :: 0 <= k < |Pieces(spans)| ==> AllMath(Pieces(spans)[k])
    ensures Flatten(Pieces(spans)) == MathSpans(spans)
  {
    if spans != [] {
      var ps := Pieces(spans[1..]);
      PiecesAreMath(spans[1..]);
      FlattenCons(ps);
      if IsMathSpan(spans[0]) {
        var qs := Pieces(spans);
        assert qs == [[spans[0]] + ps[0]] + ps[1..];
        forall k | 0 <= k < |qs| ensures AllMath(qs[k]) {
          if k > 0 {
            assert qs[k] == ps[k];
          }
        }
        FlattenCons(qs);
        assert qs[1..] == ps[1..];
      } else {
        var qs := Pieces(spans);
        assert qs[1..] == ps;
        forall k | 0 <= k < |qs| ensures AllMath(qs[k]) {
          if k > 0 {
            assert qs[k] == ps[k - 1];
          }
        }
      }
    }
  }

  lemma FlattenCons<T>(gs: seq<seq<T>>)
    requires gs != []
    ensures Flatten(gs) == gs[0] + Flatten(gs[1..])
  {
  }

  lemma {:induction false} FlattenNonEmpty<T>(gs: seq<seq<T>>)
    ensures Flatten(NonEmpty(gs)) == Flatten(gs)
  {
    if gs != [] {
      FlattenNonEmpty(gs[1..]);
      if gs[0] != [] {
        assert NonEmpty(gs) == [gs[0]] + NonEmpty(gs[1..]);
        assert (NonEmpty(gs))[1..] == NonEmpty(gs[1..]);
      } else {
        assert NonEmpty(gs) == NonEmpty(gs[1..]);
      }
    }
  }

  lemma {:induction false} NonEmptyKeeps<T>(gs: seq<seq<T>>, P: seq<T> -> bool)
    requires forall k :: 0 <= k < |gs| ==> P(gs[k])
    ensures forall k :: 0 <= k < |NonEmpty(gs)| ==> P(NonEmpty(gs)[k])
  {
    if gs != [] {
      NonEmptyKeeps(gs[1..], P);
      var r := NonEmpty(gs);
      var t := NonEmpty(gs[1..]);
      if gs[0] != [] {
        assert r == [gs[0]] + t;
        forall k | 0 <= k < |r| ensures P(r[k]) {
          if k > 0 {
            assert r[k] == t[k - 1];
          }
        }
      } else {
        assert r == t;
      }
    }
  }

  /** Each group of a line is a non-empty run of math spans, and together the groups hold
      exactly the line's math runs, in order. */
  lemma GroupsCoverMathRuns(line: seq<Span>)
    ensures forall k :: 0 <= k < |Groups(line, [])| ==> Groups(line, [])[k] != [] && AllMath(Groups(line, [])[k])
    ensures Flatten(Groups(line, [])) == MathSpans(line)
  {
    GroupsAreMathRuns(line);
    PiecesAreMath(line);
    FlattenNonEmpty(Pieces(line));
    NonEmptyKeeps(Pieces(line), AllMath);
  }

  /** Building a region per group, keeping those `_build_region` does not discard. */
  function BuildAll(pageNum: int, width: real, line: seq<Span>, gs: seq<seq<Span>>): (rs: seq<Region>)
    ensures |rs| <= |gs|
  {
    if gs == [] then []
    else
      var o := BuildRegion(pageNum, gs[0], width, line);
      (if o.Some? then [o.value] else []) + BuildAll(pageNum, width, line, gs[1..])
  }

  /** The regions one line of a text block contributes. */
  function LineRegions(pageNum: int, width: real, line: seq<Span>): seq<Region>
  {
    BuildAll(pageNum, width, line, Groups(line, []))
  }

  function LinesRegions(pageNum: int, width: real, lines: seq<seq<Span>>): seq<Region>
  {
    if lines == [] then []
    else LineRegions(pageNum, width, lines[0]) + LinesRegions(pageNum, width, lines[1..])
  }

  /** The regions of one block; non-text blocks contribute nothing. */
  function BlockRegions(pageNum: int, width: real, b: Block): seq<Region>
  {
    if IsTextBlock(b) then LinesRegions(pageNum, width, b.lines) else []
  }

  /** The regions found before merging, block by block. */
  function BlocksRegions(pageNum: int, width: real, blocks: seq<Block>): seq<Region>
  {
    if blocks == [] then []
    else BlockRegions(pageNum, width, blocks[0]) + BlocksRegions(pageNum, width, blocks[1..])
  }

  /** The regions of a page's text blocks, before merging. */
  function Candidates(page: PageLayout): seq<Region>
  {
    BlocksRegions(page.number, page.width, page.blocks)
  }

  /** `detect_formula_regions`. */
  function DetectFormulaRegions(page: PageLayout): (rs: seq<Region>)
    ensures |rs| <= |Candidates(page)|
  {
    MergeRegions(Candidates(page))
  }

  function TextBlocks(blocks: seq<Block>): (r: seq<Block>)
    ensures forall k :: 0 <= k < |r| ==> IsTextBlock(r[k])
  {
    if blocks == [] then []
    else (if IsTextBlock(blocks[0]) then [blocks[0]] else []) + TextBlocks(blocks[1..])
  }

  /** Image and other non-text blocks are skipped: detection sees only the text blocks. */
  lemma {:induction false} NonTextBlocksSkipped(pageNum: int, width: real, blocks: seq<Block>)
    ensures BlocksRegions(pageNum, width, blocks) == BlocksRegions(pageNum, width, TextBlocks(blocks))
  {
    if blocks != [] {
      NonTextBlocksSkipped(pageNum, width, blocks[1..]);
      var rest := TextBlocks(blocks[1..]);
      if IsTextBlock(blocks[0]) {
        assert TextBlocks(blocks) == [blocks[0]] + rest;
        assert ([blocks[0]] + rest)[1..] == rest;
      } else {
        assert TextBlocks(blocks) == rest;
      }
    }
  }

  /** What every region built from groups satisfies. */
  predicate WellBuilt(r: Region, pageNum: int) {
    && r.page == pageNum
    && r.latex == []
    && r.spans != []
    && AllMath(r.spans)
    && WorthKeeping(r.spans)
    && r.rawChars == RawChars(r.spans)
  }

  predicate AllWellBuilt(rs: seq<Region>, pageNum: int) {
    forall k :: 0 <= k < |rs| ==> WellBuilt(rs[k], pageNum)
  }

  lemma AllWellBuiltConcat(a: seq<Region>, b: seq<Region>, pageNum: int)
    requires AllWellBuilt(a, pageNum) && AllWellBuilt(b, pageNum)
    ensures AllWellBuilt(a + b, pageNum)
  {
    forall k | 0 <= k < |a + b| ensures WellBuilt((a + b)[k], pageNum) {
      if k >= |a| {
        assert (a + b)[k] == b[k - |a|];
      }
    }
  }

  lemma {:induction false} BuildAllWellBuilt(pageNum: int, width: real, line: seq<Span>, gs: seq<seq<Span>>)
    requires forall k :: 0 <= k < |gs| ==> AllMath(gs[k])
    ensures AllWellBuilt(BuildAll(pageNum, width, line, gs), pageNum)
  {
    if gs != [] {
      BuildAllWellBuilt(pageNum, width, line, gs[1..]);
      var o := BuildRegion(pageNum, gs[0], width, line);
      var head := if o.Some? then [o.value] else [];
      AllWellBuiltConcat(head, BuildAll(pageNum, width, line, gs[1..]), pageNum);
    }
  }

  lemma {:induction false} LinesWellBuilt(pageNum: int, width: real, lines: seq<seq<Span>>)
    ensures AllWellBuilt(LinesRegions(pageNum, width, lines), pageNum)
  {
    if lines != [] {
      GroupsCoverMathRuns(lines[0]);
      BuildAllWellBuilt(pageNum, width, lines[0], Groups(lines[0], []));
      LinesWellBuilt(pageNum, width, lines[1..]);
      AllWellBuiltConcat(LineRegions(pageNum, width, lines[0]), LinesRegions(pageNum, width, lines[1..]), pageNum);
    }
  }

  lemma {:induction false} BlocksWellBuilt(pageNum: int, width: real, blocks: seq<Block>)
    ensures AllWellBuilt(BlocksRegions(pageNum, width, blocks), pageNum)
  {
    if blocks != [] {
      if IsTextBlock(blocks[0]) {
        LinesWellBuilt(pageNum, width, blocks[0].lines);
      }
      BlocksWellBuilt(pageNum, width, blocks[1..]);
      AllWellBuiltConcat(BlockRegions(pageNum, width, blocks[0]), BlocksRegions(pageNum, width, blocks[1..]), pageNum);
    }
  }

  /** Before merging, every region lies on the scanned page, has no LaTeX yet, and consists of
      a non-empty run of math spans that passed the size test, with its raw characters. */
  lemma CandidatesWellBuilt(page: PageLayout)
    ensures AllWellBuilt(Candidates(page), page.number)
  {
    BlocksWellBuilt(page.number, page.width, page.blocks);
  }

  /** Every detected region lies on the scanned page, and merging keeps, page by page, all
      the characters and runs of the regions found. */
  lemma DetectedRegionsOnPage(page: PageLayout)
    ensures forall k :: 0 <= k < |DetectFormulaRegions(page)| ==> DetectFormulaRegions(page)[k].page == page.number
    ensures AllRawChars(DetectFormulaRegions(page)) == AllRawChars(Candidates(page))
    ensures AllSpans(DetectFormulaRegions(page)) == AllSpans(Candidates(page))
  {
    var cs := Candidates(page);
    CandidatesWellBuilt(page);
    MergePages(cs);
    MergeKeepsContent(cs);
    var out := DetectFormulaRegions(page);
    forall k | 0 <= k < |out| ensures out[k].page == page.number {
      var i :| 0 <= i < |cs| && cs[i].page == out[k].page;
      assert WellBuilt(cs[i], page.number);
    }
  }

  /** A line without math runs, or a page without text blocks, yields no region. */
  lemma NoMathNoRegions(pageNum: int, width: real, line: seq<Span>)
    requires forall i :: 0 <= i < |line| ==> !IsMathSpan(line[i])
    ensures LineRegions(pageNum, width, line) == []
  {
    GroupsCoverMathRuns(line);
    NoMathRunsEmpty(line);
    FlattenLength(Groups(line, []));
  }

  lemma {:induction false} FlattenLength<T>(gs: seq<seq<T>>)
    requires forall k :: 0 <= k < |gs| ==> gs[k] != []
    ensures |Flatten(gs)| >= |gs|
  {
    if gs != [] {
      FlattenLength(gs[1..]);
    }
  }

  lemma {:induction false} NoMathRunsEmpty(line: seq<Span>)
    requires forall i :: 0 <= i < |line| ==> !IsMathSpan(line[i])
    ensures MathSpans(line) == []
  {
    if line != [] {
      NoMathRunsEmpty(line[1..]);
    }
  }

  lemma {:induction false} NoTextNoRegions(pageNum: int, width: real, blocks: seq<Block>)
    requires forall k :: 0 <= k < |blocks| ==> !IsTextBlock(blocks[k])
    ensures BlocksRegions(pageNum, width, blocks) == []
  {
    if blocks != [] {
      NoTextNoRegions(pageNum, width, blocks[1..]);
    }
  }

  /** A line made of three math runs separated from a fourth by body text yields two groups. */
  lemma GroupsExample(a: Span, b: Span, t: Span, c: Span)
    requires IsMathSpan(a) && IsMathSpan(b) && !IsMathSpan(t) && IsMathSpan(c)
    ensures Groups([a, b, t, c], []) == [[a, b], [c]]
  {
    var none: seq<Span> := [];
    assert [a, b, t, c][1..] == [b, t, c] && [b, t, c][1..] == [t, c] && [t, c][1..] == [c] && [c][1..] == [];
    assert none + [a] == [a] && [a] + [b] == [a, b] && none + [c] == [c];
    assert Groups([c], []) == [[c]] by {
      assert Groups([c], []) == Groups([], [c]);
    }
    assert Groups([t, c], [a, b]) == [[a, b]] + Groups([c], []);
    assert Groups([b, t, c], [a]) == Groups([t, c], [a, b]);
    assert Groups([a, b, t, c], []) == Groups([b, t, c], [a]);
  }

  /** Detection only finds regions; none of them carries LaTeX yet. */
  lemma DetectedHaveNoLatex(page: PageLayout)
    ensures NoLatexYet(DetectFormulaRegions(page))
  {
    var cs := Candidates(page);
    CandidatesWellBuilt(page);
    assert forall k :: 0 <= k < |cs| ==> WellBuilt(cs[k], page.number);
    MergeKeepsNoLatex(cs);
  }
}
