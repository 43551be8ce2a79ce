/** Text runs, formula regions and the construction of one region from a group of math runs. */
module Regions {
  import opened Results
  import opened Text
  import opened Geometry
  import opened MathFonts

  /** One text run of the page layout. A missing `text` or `font` reads as the empty string
      and a missing `flags` as 0, as the source's `dict.get` defaults do. */
  datatype Span = Span(text: string, font: string, flags: int, bbox: Box)

  /** A detected formula. `latex` stays empty until OCR succeeds. */
  datatype Region = Region(
    page: int,
    box: Box,
    isDisplay: bool,
    spans: seq<Span>,
    rawChars: string,
    latex: string)

  /** Fewest non-whitespace characters a formula needs unless it shows structure. */
  const MinFormulaChars: nat := 3

  /** A formula wider than this fraction of the page may be a display formula. */
  const DisplayWidthRatio: real := 0.3

  /** A display formula's line carries fewer than this many non-math characters. */
  const DisplayMaxBodyChars: nat := 5

  predicate IsMathSpan(s: Span) {
    IsMathFont(s.font)
  }

  /** The texts of the runs, concatenated in order. */
  function Texts(spans: seq<Span>): string
  {
    if spans == [] then [] else spans[0].text + Texts(spans[1..])
  }

  /** `_extract_raw_chars`: every non-whitespace character of the runs, in order. */
  function RawChars(spans: seq<Span>): (r: string)
    ensures NoSpace(r)
    ensures |r| <= |Texts(spans)|
  {
    if spans == [] then [] else RemoveSpaces(spans[0].text) + RawChars(spans[1..])
  }

  /** Raw characters are the concatenated text with its whitespace removed. */
  lemma {:induction false} RawCharsAreTextWithoutSpaces(spans: seq<Span>)
    ensures RawChars(spans) == RemoveSpaces(Texts(spans))
  {
    if spans != [] {
      RawCharsAreTextWithoutSpaces(spans[1..]);
      RemoveSpacesConcat(spans[0].text, Texts(spans[1..]));
    }
  }

  /** Extracting raw characters distributes over concatenation of run lists. */
  lemma {:induction false} RawCharsConcat(a: seq<Span>, b: seq<Span>)
    ensures RawChars(a + b) == RawChars(a) + RawChars(b)
  {
    if a == [] {
      assert a + b == b;
    } else {
      var ab := a + b;
      assert ab[0] == a[0];
      assert ab[1..] == a[1..] + b;
      RawCharsConcat(a[1..], b);
      calc {
        RawChars(ab);
        RemoveSpaces(a[0].text) + RawChars(a[1..] + b);
        RemoveSpaces(a[0].text) + (RawChars(a[1..]) + RawChars(b));
      }
    }
  }

  /** Runs whose texts are all whitespace (or missing) give no raw characters, and only they. */
  lemma {:induction false} RawCharsEmpty(spans: seq<Span>)
    ensures RawChars(spans) == [] <==> forall i :: 0 <= i < |spans| ==> IsBlank(spans[i].text)
  {
    if spans != [] {
      RawCharsEmpty(spans[1..]);
      assert forall i :: 1 <= i < |spans| ==> spans[i] == spans[1..][i - 1];
    }
  }

  /** The documented extraction examples: order is kept and whitespace is dropped. */
  lemma RawCharsExamples(b: Box)
    ensures RawChars([Span("x ", "", 0, b), Span("+ y", "", 0, b)]) == "x+y"
    ensures RawChars([Span("   ", "CMMI10", 0, b)]) == ""
    ensures RawChars([]) == ""
  {
    var s1, s2 := Span("x ", "", 0, b), Span("+ y", "", 0, b);
    assert RemoveSpaces("x ") == "x" by {
      assert IsSpace(' ');
      assert "x "[1..] == " ";
      assert " "[1..] == "";
    }
    assert RemoveSpaces("+ y") == "+y" by {
      assert "+ y"[1..] == " y";
      assert " y"[1..] == "y";
    }
    assert [s1, s2][1..] == [s2];
    assert RawChars([s2]) == "+y";
    RawCharsEmpty([Span("   ", "CMMI10", 0, b)]);
  }

  /** Bit 0 of the style flags (super/subscript). `%` is Euclidean, so this agrees with
      Python's `flags & 1` for negative flags too. */
  predicate IsScript(s: Span) {
    s.flags % 2 == 1
  }

  function HasScript(spans: seq<Span>): (b: bool)
    ensures b <==> exists i :: 0 <= i < |spans| && IsScript(spans[i])
  {
    if spans == [] then false
    else IsScript(spans[0]) || HasScript(spans[1..])
  }

  /** The distinct font names of the runs. */
  function FontSet(spans: seq<Span>): set<string>
  {
    set i | 0 <= i < |spans| :: spans[i].font
  }

  /** More than one distinct font exactly when two runs differ in font. */
  lemma MixedFontsIff(spans: seq<Span>)
    ensures |FontSet(spans)| > 1 <==> exists i, j :: 0 <= i < |spans| && 0 <= j < |spans| && spans[i].font != spans[j].font
  {
    var fs := FontSet(spans);
    if i, j :| 0 <= i < |spans| && 0 <= j < |spans| && spans[i].font != spans[j].font {
      var a, b := spans[i].font, spans[j].font;
      assert {a, b} <= fs;
      assert |{a, b}| == 2;
      SubsetCard({a, b}, fs);
    } else if spans == [] {
      assert fs == {};
    } else {
      assert fs <= {spans[0].font};
      SubsetCard(fs, {spans[0].font});
    }
  }

  lemma SubsetCard<T>(a: set<T>, b: set<T>)
    requires a <= b
    ensures |a| <= |b|
  {
    assert b == a + (b - a);
  }

  /** `_has_math_structure`: some run is a super/subscript, or the runs use several fonts. */
  function HasMathStructure(spans: seq<Span>): (b: bool)
    ensures b <==> (exists i :: 0 <= i < |spans| && IsScript(spans[i]))
                   || (exists i, j :: 0 <= i < |spans| && 0 <= j < |spans| && spans[i].font != spans[j].font)
  {
    MixedFontsIff(spans);
    HasScript(spans) || |FontSet(spans)| > 1
  }

  /** A run whose text strips to nothing. */
  predicate IsBlankSpan(s: Span) {
    IsBlank(s.text)
  }

  /** Drops the leading whitespace-only runs. */
  function DropLeadingBlank(spans: seq<Span>): (r: seq<Span>)
    ensures |r| <= |spans|
    ensures forall i :: 0 <= i < |spans| - |r| ==> IsBlankSpan(spans[i])
    ensures r != [] ==> !IsBlankSpan(r[0])
  {
    if spans != [] && IsBlankSpan(spans[0]) then DropLeadingBlank(spans[1..]) else spans
  }

  /** Drops the trailing whitespace-only runs. */
  function DropTrailingBlank(spans: seq<Span>): (r: seq<Span>)
    ensures |r| <= |spans|
    ensures forall i :: |r| <= i < |spans| ==> IsBlankSpan(spans[i])
    ensures r != [] ==> !IsBlankSpan(r[|r| - 1])
  {
    if spans != [] && IsBlankSpan(spans[|spans| - 1]) then DropTrailingBlank(spans[..|spans| - 1]) else spans
  }

  /** What is left after dropping leading runs is a suffix of the group. */
  lemma {:induction false} DropLeadingSuffix(spans: seq<Span>)
    ensures DropLeadingBlank(spans) == spans[|spans| - |DropLeadingBlank(spans)|..]
  {
    if spans != [] && IsBlankSpan(spans[0]) {
      DropLeadingSuffix(spans[1..]);
    }
  }

  /** What is left after dropping trailing runs is a prefix of the group. */
  lemma {:induction false} DropTrailingPrefix(spans: seq<Span>)
    ensures DropTrailingBlank(spans) == spans[..|DropTrailingBlank(spans)|]
  {
    if spans != [] && IsBlankSpan(spans[|spans| - 1]) {
      DropTrailingPrefix(spans[..|spans| - 1]);
    }
  }

  /** The runs whose boxes make up the region's box: the group without its leading and
      trailing whitespace-only runs, or the whole group when nothing else is left. */
  function BoxSpans(spans: seq<Span>): (r: seq<Span>)
    ensures |spans| > 0 ==> |r| > 0
  {
    var content := DropTrailingBlank(DropLeadingBlank(spans));
    if content != [] then content else spans
  }

  /** The box runs are the group cut at both ends, where only whitespace-only runs are cut
      off; they start and end with a run that has text, unless the group has none. */
  lemma BoxSpansTrims(spans: seq<Span>)
    ensures (forall i :: 0 <= i < |spans| ==> IsBlankSpan(spans[i])) ==> BoxSpans(spans) == spans
    ensures (exists i :: 0 <= i < |spans| && !IsBlankSpan(spans[i])) ==>
              var r := BoxSpans(spans);
              r != [] && !IsBlankSpan(r[0]) && !IsBlankSpan(r[|r| - 1])
    ensures exists a, b :: 0 <= a <= b <= |spans| && BoxSpans(spans) == spans[a..b]
              && (forall i :: 0 <= i < a ==> IsBlankSpan(spans[i]))
              && (forall i :: b <= i < |spans| ==> IsBlankSpan(spans[i]))
  {
    var lead := DropLeadingBlank(spans);
    var content := DropTrailingBlank(lead);
    var a := |spans| - |lead|;
    DropLeadingSuffix(spans);
    DropTrailingPrefix(lead);
    if content != [] {
      ContentTrims(spans, lead, content, a);
    } else {
      forall i | 0 <= i < |spans| ensures IsBlankSpan(spans[i]) {
        if i >= a {
          assert spans[i] == lead[i - a];
        }
      }
      assert spans == spans[0..|spans|];
    }
  }

  lemma ContentTrims(spans: seq<Span>, lead: seq<Span>, content: seq<Span>, a: nat)
    requires lead == DropLeadingBlank(spans) && content == DropTrailingBlank(lead) && content != []
    requires a == |spans| - |lead| && lead == spans[a..] && content == lead[..|content|]
    ensures BoxSpans(spans) == content && content == spans[a..a + |content|]
    ensures !IsBlankSpan(content[0]) && !IsBlankSpan(content[|content| - 1])
    ensures forall i :: 0 <= i < a ==> IsBlankSpan(spans[i])
    ensures forall i :: a + |content| <= i < |spans| ==> IsBlankSpan(spans[i])
  {
    assert content[0] == lead[0];
    forall i | a + |content| <= i < |spans| ensures IsBlankSpan(spans[i]) {
      assert spans[i] == lead[i - a];
    }
  }

  function Boxes(spans: seq<Span>): (r: seq<Box>)
    ensures |r| == |spans| && forall i :: 0 <= i < |spans| ==> r[i] == spans[i].bbox
  {
    if spans == [] then [] else [spans[0].bbox] + Boxes(spans[1..])
  }

  /** The stripped text of the line's non-math runs, concatenated. */
  function BodyText(line: seq<Span>): string
  {
    if line == [] then []
    else (if IsMathSpan(line[0]) then [] else Strip(line[0].text)) + BodyText(line[1..])
  }

  /** Formula width over page width, taken as 0 on a page without positive width. */
  function WidthRatio(box: Box, pageWidth: real): real
  {
    if pageWidth > 0.0 then Width(box) / pageWidth else 0.0
  }

  /** The size test of `_build_region`: at least three raw characters, or exactly two when
      the group shows math structure. */
  predicate WorthKeeping(spans: seq<Span>) {
    var n := |RawChars(spans)|;
    n >= MinFormulaChars || (n == 2 && HasMathStructure(spans))
  }

  /** `_build_region`: the region for one group of consecutive math runs, or None when the
      group is too small. */
  function BuildRegion(pageNum: int, spans: seq<Span>, pageWidth: real, line: seq<Span>): (r: Option<Region>)
    ensures r.Some? <==> WorthKeeping(spans)
    ensures r.Some? ==> |spans| > 0
    ensures r.Some? ==> r.value.page == pageNum && r.value.spans == spans && r.value.latex == []
    ensures r.Some? ==> r.value.rawChars == RawChars(spans) && |r.value.rawChars| >= 2
    ensures r.Some? ==> CoversAll(r.value.box, Boxes(BoxSpans(spans)))
    ensures r.Some? ==> forall c :: CoversAll(c, Boxes(BoxSpans(spans))) ==> Contains(c, r.value.box)
    ensures r.Some? ==> (r.value.isDisplay <==>
              WidthRatio(r.value.box, pageWidth) > DisplayWidthRatio && |BodyText(line)| < DisplayMaxBodyChars)
  {
    var raw := RawChars(spans);
    if |raw| < MinFormulaChars && (|raw| < 2 || !HasMathStructure(spans)) then None
    else
      assert |spans| > 0;
      var box := UnionAll(Boxes(BoxSpans(spans)));
      var display := WidthRatio(box, pageWidth) > DisplayWidthRatio && |BodyText(line)| < DisplayMaxBodyChars;
      Some(Region(pageNum, box, display, spans, raw, []))
  }

  /** A lone letter in a math font is discarded, even with a script flag. */
  lemma SingleCharacterDiscarded(pageNum: int, s: Span, pageWidth: real, line: seq<Span>)
    requires |RawChars([s])| == 1
    ensures BuildRegion(pageNum, [s], pageWidth, line) == None
  {
  }

  /** Two characters with a super/subscript flag (like x squared) are kept. */
  lemma ScriptedPairKept(pageNum: int, base: Span, script: Span, pageWidth: real, line: seq<Span>)
    requires |RawChars([base, script])| == 2 && IsScript(script)
    ensures BuildRegion(pageNum, [base, script], pageWidth, line).Some?
  {
    assert [base, script][1] == script;
  }

  /** Two characters in one font and without script flags are discarded. */
  lemma PlainPairDiscarded(pageNum: int, a: Span, b: Span, pageWidth: real, line: seq<Span>)
    requires |RawChars([a, b])| == 2 && !IsScript(a) && !IsScript(b) && a.font == b.font
    ensures BuildRegion(pageNum, [a, b], pageWidth, line) == None
  {
    var spans := [a, b];
    assert forall i :: 0 <= i < |spans| ==> spans[i] == a || spans[i] == b;
    assert !HasMathStructure(spans);
  }
}
