# pdf2md formula pipeline — a Dafny model

pdf2md turns a PDF into markdown with a rule-based extractor (pymupdf4llm). When an
OpenRouter key is given, it also runs a hybrid pipeline over the math. The pipeline:

1. finds the formulas by their fonts: Computer Modern and AMS math families;
2. groups consecutive math runs of a line into formula regions and merges fragments
   that sit next to each other;
3. crops each region out of a page rendered at 300 dpi and pads the crop with white;
4. sends the crops in numbered batches to a vision model and parses its numbered
   answer back into LaTeX per region;
5. finds each formula's garbled rendering in the markdown with a fuzzy pattern and
   replaces it with `$latex$` or `$$latex$$`.

The model covers this pipeline, from font classification to patching, and the
orchestration that wraps it in the converter. Each module follows one stage of the
source:

| file | module | source |
|---|---|---|
| results.dfy | `Results` | `X \| None` and raised exceptions, as `Option` and `Result` |
| text.dfy | `Text` | the Python string primitives the code relies on: `isspace`, `strip`, `split("\n")`, `"\n".join`, `replace`, `int`/`str` on digits |
| geometry.dfy | `Geometry` | bounding boxes and their union |
| fonts.dfy | `MathFonts` | `MATH_FONT_RE`, `is_math_font` |
| regions.dfy | `Regions` | `FormulaRegion`, `_extract_raw_chars`, `_has_math_structure`, `_build_region` |
| detect.dfy | `Detection` | `detect_formula_regions` |
| merge.dfy | `Merge` | `_merge_nearby_regions` |
| pattern.dfy | `SearchPattern` | `build_search_pattern` and the regular-expression search it feeds |
| crop.dfy | `Crop` | `crop_formula_image` |
| ocr.dfy | `FormulaOcr` | response parsing in `_ocr_batch_openrouter` |
| batches.dfy | `OcrBatches` | `ocr_formulas`: cropping, batching, merging batch results, write-back |
| patch.dfy | `Patch` | `patch_markdown` |
| converter.dfy | `Converter` | `ConversionError`, `ConversionTimeoutError`, `_run_pymupdf` (page-chunk branch), `_run_formula_ocr`, `_run_hybrid` |

The pipeline's collaborators are inputs to the model:

- the page layout that pymupdf reports (`PageLayout`: blocks, lines, runs);
- the renderer, a function from page number to `Bitmap`;
- the model's answers, one optional text per batch, where `None` means the request failed;
- the extractor's per-page markdown.

The regular expressions are modelled by what they match:

- The search pattern is a language predicate (`Spells`). It is paired with a
  backtracking matcher that tries the greedy `{0,6}` filler from longest to shortest,
  as Python's engine does. The matcher is proved sound and complete for the language,
  and the search is proved to find the leftmost match.
- The answer-line regex `^(\d+)[:.]\s*(.+)$` is modelled as a function on one line. It
  is proved to accept exactly the lines of that shape and to return the two groups.

Three details of the code that the model keeps:

- Two regions merge only when their vertical overlap is strictly more than half of the
  shorter height (`> 0.5` at formula_ocr.py:218). An overlap of exactly half does not
  merge.
- A region's LaTeX is patched in only when it is non-blank after `strip()`
  (formula_ocr.py:497-500). LaTeX made only of whitespace is skipped.
- A crop that the image library refuses is not caught inside `ocr_formulas`
  (formula_ocr.py:416-420). It aborts the whole formula pass, and `_run_hybrid` then
  falls back to the plain result. The other regions of the document are not patched.

## Model

| member | source | states |
|---|---|---|
| Text.IsSpace | src/pdf2md/formula_ocr.py:74 | the characters `str.isspace` accepts, ASCII and Unicode whitespace alike; `RemoveSpaces` and `Strip` state what the code does with them |
| Text.RemoveSpaces | src/pdf2md/formula_ocr.py:71-75 | the result has no whitespace, is no longer than the input, and is empty exactly when the input is all whitespace |
| Text.RemoveSpacesConcat | src/pdf2md/formula_ocr.py:71-75 | dropping whitespace from a concatenation equals concatenating the whitespace-free parts |
| Text.LStrip | src/pdf2md/formula_ocr.py:378 | only leading whitespace is removed, and what is left does not start with whitespace |
| Text.RStrip | src/pdf2md/formula_ocr.py:378 | only trailing whitespace is removed, and what is left does not end with whitespace |
| Text.LStripSuffix | src/pdf2md/formula_ocr.py:378 | `lstrip` yields a suffix of its argument |
| Text.RStripPrefix | src/pdf2md/formula_ocr.py:378 | `rstrip` yields a prefix of its argument |
| Text.Strip | src/pdf2md/formula_ocr.py:377-379 | the stripped text is empty exactly when the input is blank, and otherwise starts and ends with a non-space |
| Text.LStripBlankPrefix | src/pdf2md/formula_ocr.py:378 | `lstrip` removes exactly a blank prefix in front of text that starts with a non-space |
| Text.RStripBlankSuffix | src/pdf2md/formula_ocr.py:378 | `rstrip` removes exactly a blank suffix behind text that ends with a non-space |
| Text.StripPadded | src/pdf2md/formula_ocr.py:385 | `strip` removes exactly the blank padding around text without outer whitespace |
| Text.StripUnchanged | src/pdf2md/formula_ocr.py:385 | text without outer whitespace is its own strip |
| Text.StripKeepsAbsent | src/pdf2md/formula_ocr.py:378 | `strip` introduces no character that was not there |
| Text.Join | src/pdf2md/formula_ocr.py:536 | `"\n".join(parts)`: the parts with the separator between neighbours; `JoinFirst`, `JoinLast`, `JoinSplitLines` and `SplitJoinLines` state its result |
| Text.JoinFirst | src/pdf2md/formula_ocr.py:536 | a newline join starts with the first part's first character |
| Text.JoinLast | src/pdf2md/formula_ocr.py:536 | a newline join ends with the last part's last character |
| Text.IndexOf | src/pdf2md/formula_ocr.py:377 | the position is that of the first occurrence of the character, or the length when there is none |
| Text.SplitLines | src/pdf2md/formula_ocr.py:377 | `split("\n")` gives at least one piece, and no piece holds a newline |
| Text.JoinSplitLines | src/pdf2md/formula_ocr.py:377 | splitting at newlines and re-joining gives the text back |
| Text.SplitJoinLines | src/pdf2md/formula_ocr.py:377 | joining newline-free lines and splitting again gives the lines back |
| Text.ReplaceAll | src/pdf2md/converter.py:92-96 | `str.replace`: leftmost non-overlapping occurrences rewritten left to right; `ReplaceAllAbsent` and `ReplaceAllFirst` state its result |
| Text.ReplaceAllAbsent | src/pdf2md/converter.py:92-96 | `replace` leaves text without an occurrence of the pattern unchanged |
| Text.ReplaceAllFirst | src/pdf2md/converter.py:92-96 | `replace` rewrites the first occurrence and continues after it |
| Text.DigitsValue | src/pdf2md/formula_ocr.py:384 | `int(d)` on a digit string, leading zeros allowed; `DecimalRoundTrip` states that it reads back a printed number |
| Text.DecimalString | src/pdf2md/formula_ocr.py:332-333 | the printed number is a non-empty string of digits |
| Text.DecimalRoundTrip | src/pdf2md/formula_ocr.py:384 | reading back a printed natural number gives the number |
| Geometry.Union | src/pdf2md/formula_ocr.py:171-173 | the union covers both boxes and lies inside every box that covers both |
| Geometry.UnionAll | src/pdf2md/formula_ocr.py:170-173 | the folded union covers every box of the list and lies inside every box that covers them all |
| Geometry.Width | src/pdf2md/formula_ocr.py:182 | a rectangle's width is never negative, and is `x1 - x0` for a well-ordered box |
| MathFonts.LetterMatches | src/pdf2md/formula_ocr.py:22-24 | an input character matches a pattern letter under IGNORECASE exactly when it folds to that letter (both ASCII cases, and the special Unicode folds of I, S and K) |
| MathFonts.LetterMatchesFolds | src/pdf2md/formula_ocr.py:22-24 | the engine's lower-case lookup agrees with the fold relation letter by letter |
| MathFonts.MatchesPrefix | src/pdf2md/formula_ocr.py:22-24 | one alternative matches exactly when the name starts with it, ignoring case |
| MathFonts.MatchesAnyPrefix | src/pdf2md/formula_ocr.py:22-24 | the alternation matches exactly when some alternative starts the name |
| MathFonts.IsMathFont | src/pdf2md/formula_ocr.py:59-61 | a font is a math font exactly when its name starts, ignoring case, with CMMI, CMSY, CMEX, CMR, CMSS, MSBM, EUFM or MSAM |
| MathFonts.ToUpperAsciiString | src/pdf2md/formula_ocr.py:22-24 | upper-casing keeps the length and maps each character on its own |
| MathFonts.MathFontIgnoresCase | src/pdf2md/formula_ocr.py:22-24 | the classification is the same for a name and its upper-case form |
| MathFonts.MathFontToUpper | src/pdf2md/formula_ocr.py:22-24 | a math font name stays one when upper-cased |
| MathFonts.MathFontFromUpper | src/pdf2md/formula_ocr.py:22-24 | a name whose upper-case form is a math font is one itself |
| MathFonts.StartsWithFoldedUpper | src/pdf2md/formula_ocr.py:22-24 | starting with an upper-case prefix ignoring case does not depend on the name's case |
| MathFonts.FoldsToUpper | src/pdf2md/formula_ocr.py:22-24 | a character folds to a letter exactly when its ASCII upper case does |
| MathFonts.PrefixMakesMathFont | src/pdf2md/formula_ocr.py:59-61 | any name that starts with one of the family names is a math font |
| MathFonts.MathFontStart | src/pdf2md/formula_ocr.py:22-24 | a math font name has at least three characters and starts with C, M or E, ignoring case |
| MathFonts.NotMathFontByStart | src/pdf2md/formula_ocr.py:22-24 | a name shorter than three characters, or one that starts with another letter, is not a math font |
| MathFonts.MathFontExtends | src/pdf2md/formula_ocr.py:22-24 | the pattern is anchored only at the start, so any extension of a math font name is one too |
| MathFonts.MathFontExamples | src/pdf2md/formula_ocr.py:20-24 | CMMI10, CMSY8, CMEX10, CMR12, CMSS10, MSBM10, EUFM10, MSAM10, cmmi7 and CmSy5 are math fonts |
| MathFonts.MixedCaseExamples | src/pdf2md/formula_ocr.py:22-24 | lower-case and mixed-case names such as cmmi7 and CmSy5 are math fonts |
| MathFonts.BodyFontExamples | src/pdf2md/formula_ocr.py:20-21 | the body-text families SFRM, SFTI and SFBX are not math fonts |
| MathFonts.GenericFontExamples | src/pdf2md/formula_ocr.py:114 | Arial, TimesNewRoman, Helvetica and the empty name of a run without a font are not math fonts |
| Regions.RawChars | src/pdf2md/formula_ocr.py:64-75 | the raw characters hold no whitespace and are no longer than the runs' text |
| Regions.RawCharsAreTextWithoutSpaces | src/pdf2md/formula_ocr.py:64-75 | the raw characters are the runs' concatenated text with every whitespace character removed, in order |
| Regions.RawCharsConcat | src/pdf2md/formula_ocr.py:64-75 | extraction distributes over concatenation of run lists |
| Regions.RawCharsEmpty | src/pdf2md/formula_ocr.py:64-75 | the raw characters are empty exactly when every run's text is blank or missing |
| Regions.RawCharsExamples | src/pdf2md/formula_ocr.py:64-75 | "x " and "+ y" give "x+y"; a blank run or no run gives "" |
| Regions.HasScript | src/pdf2md/formula_ocr.py:85 | true exactly when some run has bit 0 of its flags set |
| Regions.MixedFontsIff | src/pdf2md/formula_ocr.py:87-88 | the runs use more than one distinct font exactly when two runs differ in font |
| Regions.HasMathStructure | src/pdf2md/formula_ocr.py:78-89 | a group has math structure exactly when some run is a super/subscript or two runs differ in font |
| Regions.DropLeadingBlank | src/pdf2md/formula_ocr.py:162-163 | only whitespace-only runs are dropped from the front, and what is left starts with a run that has text |
| Regions.DropTrailingBlank | src/pdf2md/formula_ocr.py:164-165 | only whitespace-only runs are dropped from the back, and what is left ends with a run that has text |
| Regions.DropLeadingSuffix | src/pdf2md/formula_ocr.py:162-163 | the remaining runs are a suffix of the group |
| Regions.DropTrailingPrefix | src/pdf2md/formula_ocr.py:164-165 | the remaining runs are a prefix of the group |
| Regions.BoxSpans | src/pdf2md/formula_ocr.py:161-167 | the box runs of a non-empty group are never empty |
| Regions.BoxSpansTrims | src/pdf2md/formula_ocr.py:161-167 | the box runs are a contiguous slice of the group with only blank runs cut off at either end; they start and end with a run that has text, or they are the whole group when every run is blank |
| Regions.ContentTrims | src/pdf2md/formula_ocr.py:161-167 | after both trimming loops, the content runs are the slice between the leading and trailing blank runs |
| Regions.Boxes | src/pdf2md/formula_ocr.py:170 | one rectangle per run, each the run's own box |
| Regions.BuildRegion | src/pdf2md/formula_ocr.py:138-191 | a region exists exactly when the group has at least three raw characters, or two with math structure. It lies on the page, keeps all runs and their raw characters, and has no LaTeX yet. Its box covers every content run's box and lies inside any box that does. It is display exactly when its width ratio exceeds 0.3 and the line's stripped non-math text is shorter than 5 |
| Regions.SingleCharacterDiscarded | src/pdf2md/formula_ocr.py:152-156 | a lone character in a math font is discarded, even with a script flag |
| Regions.ScriptedPairKept | src/pdf2md/formula_ocr.py:154-156 | two characters with a super/subscript run are kept |
| Regions.PlainPairDiscarded | src/pdf2md/formula_ocr.py:153-156 | two characters in one font without script flags are discarded |
| Detection.MathSpans | src/pdf2md/formula_ocr.py:113-115 | the kept runs are all in math fonts |
| Detection.NonEmpty | src/pdf2md/formula_ocr.py:118-127 | only non-empty groups are flushed |
| Detection.Pieces | src/pdf2md/formula_ocr.py:113-124 | cutting a line at its non-math runs gives at least one piece |
| Detection.Groups | src/pdf2md/formula_ocr.py:109-132 | every group the loop closes is non-empty; `GroupsAreMathRuns` and `GroupsCoverMathRuns` state that the groups are exactly the line's maximal math runs, in order |
| Detection.GroupsArePieces | src/pdf2md/formula_ocr.py:111-132 | the loop, started with an open group, emits the non-empty pieces, the first extended by that group |
| Detection.GroupsAreMathRuns | src/pdf2md/formula_ocr.py:111-132 | the grouping loop yields exactly the non-empty maximal runs of math spans of the line, in order |
| Detection.PiecesAreMath | src/pdf2md/formula_ocr.py:113-124 | every piece is all math runs, and together the pieces are the line's math runs in order |
| Detection.GroupsCoverMathRuns | src/pdf2md/formula_ocr.py:109-132 | each group is a non-empty run of math spans, and the groups together are exactly the line's math runs, in order |
| Detection.GroupsExample | src/pdf2md/formula_ocr.py:113-132 | two math runs, a body-text run and a math run form the groups [a, b] and [c] |
| Detection.NoMathNoRegions | src/pdf2md/formula_ocr.py:113-132 | a line without math runs yields no region |
| Detection.BuildAll | src/pdf2md/formula_ocr.py:119-123 | at most one region per group |
| Detection.BuildAllWellBuilt | src/pdf2md/formula_ocr.py:119-132 | every region built from math groups is well built (see `CandidatesWellBuilt`) |
| Detection.DetectFormulaRegions | src/pdf2md/formula_ocr.py:92-135 | merging never yields more regions than were found (what the regions hold is stated by `DetectedRegionsOnPage`) |
| Detection.TextBlocks | src/pdf2md/formula_ocr.py:104-107 | only blocks of type 0 are kept |
| Detection.NonTextBlocksSkipped | src/pdf2md/formula_ocr.py:104-107 | image and other non-text blocks contribute nothing: detection on all blocks equals detection on the text blocks |
| Detection.NoTextNoRegions | src/pdf2md/formula_ocr.py:104-107 | a page without text blocks yields no region |
| Detection.Candidates | src/pdf2md/formula_ocr.py:92-132 | the regions of the text blocks before merging; `CandidatesWellBuilt` states that each lies on the page, has no LaTeX yet and is a non-empty run of math spans with its raw characters |
| Detection.CandidatesWellBuilt | src/pdf2md/formula_ocr.py:92-132 | before merging, every region lies on the scanned page, has no LaTeX, consists of a non-empty run of math spans that passed the size test, and carries those spans' raw characters |
| Detection.DetectedRegionsOnPage | src/pdf2md/formula_ocr.py:92-135 | every detected region lies on the scanned page, and merging keeps all characters and runs of the regions found, in order |
| Detection.DetectedHaveNoLatex | src/pdf2md/formula_ocr.py:92-135 | detection leaves every region's LaTeX empty |
| Merge.VerticalOverlap | src/pdf2md/formula_ocr.py:212-214 | the overlap is never negative and never exceeds either box's height |
| Merge.CanMerge | src/pdf2md/formula_ocr.py:209-221 | the merge test: same page, positive shorter height, overlap strictly above half of it, gap below the threshold; `MergePair` states that two regions become one exactly when it holds |
| Merge.Combine | src/pdf2md/formula_ocr.py:222-233 | the combined region lies on the first region's page, has the least box covering both, is display when either is, concatenates runs and raw characters in order, and has no LaTeX |
| Merge.MergeFrom | src/pdf2md/formula_ocr.py:205-238 | the pass emits at least one region and at most one per input |
| Merge.MergeRegions | src/pdf2md/formula_ocr.py:194-239 | merging never adds regions, and yields none exactly when given none (`MergeKeepsContent` and `MergeCovers` state what is kept) |
| Merge.MergeFromKeepsContent | src/pdf2md/formula_ocr.py:205-238 | the pass emits the accumulator's characters and runs followed by those of the rest |
| Merge.MergeKeepsContent | src/pdf2md/formula_ocr.py:194-239 | merging neither loses, duplicates nor reorders raw characters or runs |
| Merge.MergeKeepsPageContent | src/pdf2md/formula_ocr.py:209-221 | page by page, the merged regions hold exactly the characters and runs of the input regions on that page, so no region spans two pages |
| Merge.MergeFromCovers | src/pdf2md/formula_ocr.py:205-238 | the accumulator and every later region lie inside an emitted region on their own page |
| Merge.MergeCovers | src/pdf2md/formula_ocr.py:194-239 | every input region lies inside an output region on its page, and a display region stays display |
| Merge.MergePages | src/pdf2md/formula_ocr.py:194-239 | no output region lies on a page that had no input region |
| Merge.MergeNothingToMerge | src/pdf2md/formula_ocr.py:234-238 | regions that no neighbour can absorb come out unchanged |
| Merge.MergePair | src/pdf2md/formula_ocr.py:208-238 | two regions become one exactly when the merge test holds, and that one is their combination |
| Merge.MergeExamples | src/pdf2md/formula_ocr.py:194-239 | fragments 2 points apart on one line merge into their union; fragments 50 points apart, or on different pages, stay separate |
| Merge.MergeKeepsNoLatex | src/pdf2md/formula_ocr.py:222-233 | merging fresh regions gives fresh regions |
| SearchPattern.BuildSearchPattern | src/pdf2md/formula_ocr.py:242-261 | there is no pattern exactly when there are fewer than two raw characters, and otherwise the pattern anchors on all of them, in order |
| SearchPattern.FillerCount | src/pdf2md/formula_ocr.py:39 | the greedy filler takes only filler characters, at most the bound, and stops before a non-filler character unless the bound is reached |
| SearchPattern.FillerCountMaximal | src/pdf2md/formula_ocr.py:39 | the greedy filler takes at least as many characters as any filler run at that position |
| SearchPattern.Match | src/pdf2md/formula_ocr.py:254-259 | an anchored match ends inside the text, at or after its start (`MatchIff` states exactly when it succeeds) |
| SearchPattern.SearchFrom | src/pdf2md/formula_ocr.py:508 | a hit starts at or after the first position tried and lies inside the text |
| SearchPattern.Search | src/pdf2md/formula_ocr.py:508 | a hit lies inside the text (`SearchLeftmost` and `SearchNoneIff` state which one is found) |
| SearchPattern.TryCounts | src/pdf2md/formula_ocr.py:39 | backtracking over the leading filler ends any match inside the text |
| SearchPattern.TryCountsSound | src/pdf2md/formula_ocr.py:39 | a match found after giving back filler characters is a string of the language |
| SearchPattern.TryCountsComplete | src/pdf2md/formula_ocr.py:39 | giving back filler characters one at a time reaches every match whose leading filler is shorter |
| SearchPattern.MatchSound | src/pdf2md/formula_ocr.py:254-259 | what the matcher matches is a string of the pattern's language |
| SearchPattern.MatchComplete | src/pdf2md/formula_ocr.py:254-259 | the matcher succeeds at every position where some string of the language starts |
| SearchPattern.MatchIff | src/pdf2md/formula_ocr.py:254-259 | the anchored matcher succeeds exactly when some string of the language starts there |
| SearchPattern.SearchFromLeftmost | src/pdf2md/formula_ocr.py:508 | scanning from a position finds the leftmost match from there on, or nothing exactly when no match starts there or later |
| SearchPattern.SearchLeftmost | src/pdf2md/formula_ocr.py:508 | `search` returns a string of the language at the leftmost position where one starts (`SearchStopsGreedily` states where it ends) |
| SearchPattern.MatchEndsGreedily | src/pdf2md/formula_ocr.py:253-258 | a match anchored at a position ends with its last anchor followed by the filler run the greedy repetition takes there |
| SearchPattern.SearchStopsGreedily | src/pdf2md/formula_ocr.py:253-258 | the hit found by `search` ends with its last anchor and then at most six filler characters, and stops at the end of the text, before a non-filler character, or after the sixth filler |
| SearchPattern.SearchNoneIff | src/pdf2md/formula_ocr.py:508-509 | `search` finds nothing exactly when no substring of the text is in the language |
| SearchPattern.InterleaveSpells | src/pdf2md/formula_ocr.py:254-259 | every interleaving of the anchors with filler runs of at most six characters is in the language |
| SearchPattern.SpellsHasAnchors | src/pdf2md/formula_ocr.py:254-259 | every anchor character occurs in a string of the language |
| SearchPattern.MissingAnchorNoMatch | src/pdf2md/formula_ocr.py:254-259 | a text that lacks one of the raw characters has no match |
| SearchPattern.FormattedTextFound | src/pdf2md/formula_ocr.py:245-248 | the pattern for "x2+y2" finds the italic, superscript-bracketed rendering `_x_ [2] + _y_ [2]` |
| SearchPattern.SearchExamples | src/pdf2md/formula_ocr.py:250-251 | one character gives no pattern, and the pattern for "abc" finds nothing in "xyz" |
| SearchPattern.SwallowsAdjacentSpaces | src/pdf2md/formula_ocr.py:254-259 | in "a x2 b" the pattern for "x2" matches from position 1 to 5, so the leading and trailing filler swallow the surrounding spaces |
| Crop.Trunc | src/pdf2md/formula_ocr.py:281-284 | `int()` on a float truncates toward zero |
| Crop.ToPixels | src/pdf2md/formula_ocr.py:279-284 | `int(v * dpi / 72.0)`, truncated toward zero by `Trunc`; `SeventyTwoDpiIsIdentity` states that 72 dpi keeps whole points |
| Crop.ScaledBox | src/pdf2md/formula_ocr.py:281-284 | the four corners scaled to pixels before clamping; `CropExample` and `InsideNotClamped` state the resulting crop |
| Crop.ClampedBox | src/pdf2md/formula_ocr.py:287-292 | the crop lies inside the bitmap and keeps exactly the pixels of the scaled box that lie inside it; it fails exactly when clamping leaves an inverted box |
| Crop.CropFormulaImage | src/pdf2md/formula_ocr.py:267-302 | the crop succeeds exactly when clamping does; the padded image is the clamped box plus 5 pixels on every side and holds that box's pixels |
| Crop.InsideNotClamped | src/pdf2md/formula_ocr.py:287-290 | a scaled box inside the bitmap is cropped exactly to itself |
| Crop.SeventyTwoDpiIsIdentity | src/pdf2md/formula_ocr.py:278-284 | at 72 dpi a whole-number coordinate in points is the same number of pixels |
| Crop.CropExample | src/pdf2md/formula_ocr.py:278-301 | a 40 by 20 point formula on a 200 by 100 pixel page at 72 dpi gives a 50 by 30 pixel padded image |
| Crop.OffPageFails | src/pdf2md/formula_ocr.py:289-292 | a formula entirely to the right of the page cannot be cropped |
| FormulaOcr.DigitsEnd | src/pdf2md/formula_ocr.py:382 | the end of a digit run lies between its start and the end of the line |
| FormulaOcr.DigitsEndMeans | src/pdf2md/formula_ocr.py:382 | the run holds only digits and is followed by a non-digit or the end of the line |
| FormulaOcr.DigitPrefix | src/pdf2md/formula_ocr.py:382 | the leading digit run lies inside the line |
| FormulaOcr.DigitPrefixOf | src/pdf2md/formula_ocr.py:382 | digits followed by a non-digit have exactly those digits as their digit prefix |
| FormulaOcr.DigitPrefixMeans | src/pdf2md/formula_ocr.py:382 | `\d+` takes all the leading digits and stops at the first non-digit |
| FormulaOcr.MatchNumbered | src/pdf2md/formula_ocr.py:382 | on a match, group 1 is a non-empty digit string and group 2 is non-empty |
| FormulaOcr.Trailing | src/pdf2md/formula_ocr.py:382 | `\s*(.+)$` leaves a non-empty group no longer than the rest of the line |
| FormulaOcr.TrailingMeans | src/pdf2md/formula_ocr.py:382 | group 2 is a suffix of the rest of the line, with only blanks in front of it |
| FormulaOcr.MatchNumberedWhen | src/pdf2md/formula_ocr.py:382-383 | a line matches exactly when it starts with digits followed by `:` or `.` and at least one more character |
| FormulaOcr.MatchNumberedParts | src/pdf2md/formula_ocr.py:382-385 | on a match the line is group 1's digits, a separator, blanks, then group 2, which ends the line |
| FormulaOcr.MatchNumberedShape | src/pdf2md/formula_ocr.py:382-385 | digits, a separator, blanks and text that starts with a non-space match with those digits and that text |
| FormulaOcr.Dollars | src/pdf2md/formula_ocr.py:388 | a run of n dollar signs has length n |
| FormulaOcr.DropLeadingDollars | src/pdf2md/formula_ocr.py:388 | removing the leading run of dollars never lengthens the text |
| FormulaOcr.DropTrailingDollars | src/pdf2md/formula_ocr.py:388 | removing the trailing run of dollars never lengthens the text |
| FormulaOcr.StripDelimiters | src/pdf2md/formula_ocr.py:388 | the cleaned LaTeX is no longer than the input and does not start or end with whitespace |
| FormulaOcr.DropLeadingOf | src/pdf2md/formula_ocr.py:388 | every dollar in front of text that does not start with one is removed |
| FormulaOcr.DropTrailingOf | src/pdf2md/formula_ocr.py:388 | every dollar behind text that does not end with one is removed |
| FormulaOcr.StripDelimitersUnwraps | src/pdf2md/formula_ocr.py:387-388 | LaTeX wrapped in any number of `$` with blanks inside them is recovered exactly |
| FormulaOcr.ParseLine | src/pdf2md/formula_ocr.py:377-392 | a line can only yield a result for a region of its own batch |
| FormulaOcr.ReadMatch | src/pdf2md/formula_ocr.py:384-392 | a matched line can only name a region of its own batch |
| FormulaOcr.ParseLines | src/pdf2md/formula_ocr.py:377-392 | the parsed map names only regions of the batch |
| FormulaOcr.Record | src/pdf2md/formula_ocr.py:392 | a reading sets its region's LaTeX and leaves every other entry alone; no reading changes nothing |
| FormulaOcr.ParseResponse | src/pdf2md/formula_ocr.py:374-394 | the parsed response names only regions of the batch |
| FormulaOcr.LastLineWins | src/pdf2md/formula_ocr.py:377-392 | a line that reads as a result sets its region's LaTeX, even over an earlier line about that region, and keeps every other region's entry; any other line changes nothing |
| FormulaOcr.FormatLine | src/pdf2md/formula_ocr.py:329-333 | an answer line holds no newline when its LaTeX holds none |
| FormulaOcr.ReadMatchReadable | src/pdf2md/formula_ocr.py:384-392 | readable LaTeX under a number from 1 to the batch size becomes the LaTeX of that image's region |
| FormulaOcr.CleanLatex | src/pdf2md/formula_ocr.py:385-388 | kept LaTeX is no longer than the answer text and has no outer whitespace; `CleanLatexKeeps` and `StripDelimitersUnwraps` state what is kept |
| FormulaOcr.CleanLatexKeeps | src/pdf2md/formula_ocr.py:385-388 | LaTeX without outer blanks or dollars that is not `???` is kept as it is |
| FormulaOcr.ParseFormattedLine | src/pdf2md/formula_ocr.py:377-392 | a line `n: latex` in the requested format reads back as image n's region and that LaTeX |
| FormulaOcr.FormatLineMatches | src/pdf2md/formula_ocr.py:382 | the requested line format matches the answer regex with the printed number and the LaTeX as groups |
| FormulaOcr.FormattedLines | src/pdf2md/formula_ocr.py:329-333 | one answer line per LaTeX |
| FormulaOcr.ParseLinesPrefix | src/pdf2md/formula_ocr.py:377-392 | reading j lines is reading j - 1 lines and then line j |
| FormulaOcr.ParseFormattedLines | src/pdf2md/formula_ocr.py:377-392 | the first lines of a well-formed answer read back as the map from those images' regions to their LaTeX |
| FormulaOcr.ParseFormattedResponse | src/pdf2md/formula_ocr.py:374-394 | an answer written exactly as the prompt asks, one numbered line per image in order, parses to the map from each image's region to its LaTeX |
| FormulaOcr.FormattedSplit | src/pdf2md/formula_ocr.py:377 | a well-formed answer has no outer blanks and splits back into its lines |
| OcrBatches.IndexedFrom | src/pdf2md/formula_ocr.py:415-420 | each labelled crop carries the position of a region from the start position on, and positions increase |
| OcrBatches.IndexedImages | src/pdf2md/formula_ocr.py:415-420 | each labelled crop carries a valid region position, and positions increase |
| OcrBatches.IndexedFromSound | src/pdf2md/formula_ocr.py:416-420 | every labelled image is its region's crop, taken from that region's rendered page |
| OcrBatches.IndexedFromCovers | src/pdf2md/formula_ocr.py:416-420 | every region whose page was rendered gets a labelled image |
| OcrBatches.IndexedFromFails | src/pdf2md/formula_ocr.py:416-420 | cropping fails exactly when some region on a rendered page cannot be cropped, and the error is that of the first such region |
| OcrBatches.Chunks | src/pdf2md/formula_ocr.py:430-432 | every batch holds at least one and at most `size` items; `ChunksFlatten`, `ChunkAt` and `ChunksCount` state their contents and number |
| OcrBatches.ChunksFlatten | src/pdf2md/formula_ocr.py:430-432 | the batches concatenate back to the list they were cut from |
| OcrBatches.ChunkAt | src/pdf2md/formula_ocr.py:431-432 | batch i is the slice of `size` items at `start + i * size`, cut short at the end of the list |
| OcrBatches.ChunksCountBounds | src/pdf2md/formula_ocr.py:431 | every batch but the last is full: the batch count c satisfies (c - 1) * size < N <= c * size |
| OcrBatches.CeilDiv | src/pdf2md/formula_ocr.py:431 | those bounds pin the count down to ⌈N / size⌉ |
| OcrBatches.ChunksCount | src/pdf2md/formula_ocr.py:431 | `range(0, N, size)` yields ⌈N / size⌉ batches |
| OcrBatches.MakeBatches | src/pdf2md/formula_ocr.py:430-432 | batching fails exactly when the size is 0, and a negative size gives no batches |
| OcrBatches.BatchesSplitItems | src/pdf2md/formula_ocr.py:430-432 | with a positive size there are ⌈N / size⌉ batches; they are consecutive slices of at most `size` items covering the list in order |
| OcrBatches.BatchResult | src/pdf2md/formula_ocr.py:446-450 | a failed batch contributes nothing, and an answered one names only its own regions |
| OcrBatches.BatchResults | src/pdf2md/formula_ocr.py:439-448 | one result per batch, each that batch's parse or nothing |
| OcrBatches.MergeAll | src/pdf2md/formula_ocr.py:444-448 | every key of every batch result is in the merged map; `MergeKeys`, `MergeValue` and `MergeOrderFree` state the rest |
| OcrBatches.MergeKeys | src/pdf2md/formula_ocr.py:448 | the merged keys are exactly the keys of the batch results |
| OcrBatches.MergeLast | src/pdf2md/formula_ocr.py:448 | every merged value comes from a batch result that holds the key |
| OcrBatches.MergeValue | src/pdf2md/formula_ocr.py:448 | with disjoint batch results, every batch's entries survive the merge unchanged |
| OcrBatches.MergeOrderFree | src/pdf2md/formula_ocr.py:444-448 | disjoint batch results merged in any completion order give the same map |
| OcrBatches.SlicesDisjoint | src/pdf2md/formula_ocr.py:431-432 | disjoint slices of the increasing image list hold disjoint region positions |
| OcrBatches.BatchResultsDisjoint | src/pdf2md/formula_ocr.py:431-448 | the results of different batches never name the same region |
| OcrBatches.ChunksDisjoint | src/pdf2md/formula_ocr.py:431-432 | two different batches hold disjoint region positions |
| OcrBatches.BatchesBounded | src/pdf2md/formula_ocr.py:439-448 | whatever the batch size, the merged map names only labelled positions |
| OcrBatches.ResultsBounded | src/pdf2md/formula_ocr.py:439-448 | with a positive size, the merged map names only labelled positions |
| OcrBatches.KeyLabelled | src/pdf2md/formula_ocr.py:439-448 | every merged key is the label of one of the images |
| OcrBatches.MergedFrom | src/pdf2md/formula_ocr.py:444-448 | every merged key comes from a batch whose labels include it |
| OcrBatches.WriteBack | src/pdf2md/formula_ocr.py:457-459 | every merged entry sets its region's LaTeX; no other field and no other region changes |
| OcrBatches.OcrFormulas | src/pdf2md/formula_ocr.py:397-461 | without regions or without a key the regions come back unchanged; on success the list has the same length and only LaTeX fields change |
| OcrBatches.OcrFailsWhen | src/pdf2md/formula_ocr.py:411-432 | with regions and a key, OCR fails exactly when some region on a rendered page cannot be cropped or the batch size is 0; a crop failure is the error reported |
| OcrBatches.OcrSkipsUnrendered | src/pdf2md/formula_ocr.py:417-418 | a region whose page has no image keeps its LaTeX |
| OcrBatches.OcrWritesAnswer | src/pdf2md/formula_ocr.py:438-459 | every entry of a batch's parsed answer lands in the region it names, even when other batches failed |
| OcrBatches.OcrWritesMerged | src/pdf2md/formula_ocr.py:411-461 | past the guard and the failures, the result is the merged answers written back, and every merged key is a valid region position |
| OcrBatches.OcrChangesOnlyAnswered | src/pdf2md/formula_ocr.py:444-459 | a region changes only when some answered batch's parse names it |
| OcrBatches.AnswersInAnyOrder | src/pdf2md/formula_ocr.py:438-448 | merging the batch results in any completion order gives the same map |
| OcrBatches.OcrAllFailed | src/pdf2md/formula_ocr.py:446-450 | when every request fails the regions come back as they were |
| Patch.Insert | src/pdf2md/formula_ocr.py:490 | an insertion adds exactly one element |
| Patch.SortByRawLen | src/pdf2md/formula_ocr.py:490 | sorting keeps the number of regions (`SortPermutesAndOrders` and `SortIsStable` state the order) |
| Patch.InsertPermutes | src/pdf2md/formula_ocr.py:490 | an insertion adds exactly the inserted region |
| Patch.InsertSorted | src/pdf2md/formula_ocr.py:490 | inserting into a list sorted by decreasing raw length keeps it sorted |
| Patch.SortPermutesAndOrders | src/pdf2md/formula_ocr.py:488-490 | the order is a permutation of the page's regions by non-increasing raw-character count |
| Patch.SortIsStable | src/pdf2md/formula_ocr.py:490 | regions with equal raw-character counts keep their input order |
| Patch.PatchOne | src/pdf2md/formula_ocr.py:492-526 | a region without usable LaTeX or without a pattern leaves the text alone (`PatchOneReplacesLeftmost` states the replacement) |
| Patch.PatchOneReplacesLeftmost | src/pdf2md/formula_ocr.py:503-525 | with usable LaTeX and a pattern, the text is left alone when no substring spells the raw characters; otherwise the leftmost such substring is replaced by the delimited LaTeX and the rest of the text is kept. The replaced substring ends after its last anchor with the longest filler run the repetition allows |
| Patch.PatchPage | src/pdf2md/formula_ocr.py:490-528 | regions applied in turn; a page none of whose regions has usable LaTeX is left unchanged (`BlankRegionsSkipped` states that such regions can be dropped from any list) |
| Patch.OnPage | src/pdf2md/formula_ocr.py:476-485 | every region listed for a page lies on that page |
| Patch.OnPageFrom | src/pdf2md/formula_ocr.py:476-478 | every region listed for a page comes from the input list |
| Patch.PatchedPages | src/pdf2md/formula_ocr.py:484-528 | one patched text per page |
| Patch.PatchMarkdown | src/pdf2md/formula_ocr.py:464-536 | the patched pages joined by newlines; `NoRegionsJoinsPages`, `NoLatexJoinsPages`, `OtherPagesIrrelevant` and `SinglePage` state its result |
| Patch.WithLatex | src/pdf2md/formula_ocr.py:493-500 | the kept regions all have usable LaTeX |
| Patch.BlankRegionsSkipped | src/pdf2md/formula_ocr.py:493-500 | regions without usable LaTeX change nothing: dropping them gives the same page |
| Patch.NoLatexNoChange | src/pdf2md/formula_ocr.py:493-500 | a page none of whose regions has usable LaTeX is left byte-identical |
| Patch.PageWithoutRegions | src/pdf2md/formula_ocr.py:485-486 | a page without regions passes through unchanged |
| Patch.NoRegionsJoinsPages | src/pdf2md/formula_ocr.py:484-536 | without regions the output is the pages joined by newlines |
| Patch.OutOfRangeIgnored | src/pdf2md/formula_ocr.py:476-485 | regions whose page number lies outside the page list are ignored |
| Patch.OtherPagesIrrelevant | src/pdf2md/formula_ocr.py:485 | a page's patch depends only on the regions of that page |
| Patch.SinglePage | src/pdf2md/formula_ocr.py:464-536 | a single region on the only page is applied to that page alone |
| Patch.PatchedTextContains | src/pdf2md/formula_ocr.py:508-525 | when the pattern occurs, the delimited LaTeX appears in the result |
| Patch.RenderingPatched | src/pdf2md/formula_ocr.py:464-536 | wherever a string of the pattern's language occurs in a one-page document, the region's delimited LaTeX appears in the output |
| Patch.DelimitedStripped | src/pdf2md/formula_ocr.py:520-523 | stripped LaTeX is put between `$$` for display and `$` for inline |
| Patch.InlineExample | src/pdf2md/formula_ocr.py:464-536 | an inline formula rendered as `_x_ [2] + _y_ [2]` anywhere in the page is replaced by its LaTeX between single dollars |
| Patch.DisplayExample | src/pdf2md/formula_ocr.py:464-536 | the same rendering of a display formula is replaced by its LaTeX between double dollars |
| Patch.RegionWithoutLatexSkipped | src/pdf2md/formula_ocr.py:493-495 | a region without LaTeX leaves its page byte-identical |
| Patch.UnmatchedRegionSkipped | src/pdf2md/formula_ocr.py:508-517 | a region one of whose characters does not occur in the page leaves it byte-identical |
| Patch.TwoPagesJoined | src/pdf2md/formula_ocr.py:536 | without regions, two pages are joined by one newline |
| Patch.NoLatexJoinsPages | src/pdf2md/formula_ocr.py:464-536 | when no region has usable LaTeX, the output is the pages joined by newlines |
| Converter.Failure | src/pdf2md/converter.py:18-23 | a conversion error keeps its message and carries a 4xx status that is not 504 |
| Converter.TimeoutWith | src/pdf2md/converter.py:26-30 | a timeout keeps its message and always carries 504 |
| Converter.Timeout | src/pdf2md/converter.py:29-30 | the default timeout has the message "Conversion timed out." and status 504 |
| Converter.StatusesDiffer | src/pdf2md/converter.py:18-30 | a failure carries 400 and a timeout carries 504, so they are never confused |
| Converter.ImagePath | src/pdf2md/converter.py:92-96 | an absolute image path is longer than the bare name |
| Converter.NormalizeWithoutPaths | src/pdf2md/converter.py:87-96 | markdown that mentions no image by its absolute path is left unchanged |
| Converter.NormalizeOneImage | src/pdf2md/converter.py:87-96 | an image mentioned once by its absolute path is rewritten to its bare name, and the rest of the text is kept |
| Converter.NormalizeImagePaths | src/pdf2md/converter.py:87-96 | each image's absolute path is replaced by its name; `NormalizeWithoutPaths` and `NormalizeOneImage` state the result |
| Converter.RunPymupdf | src/pdf2md/converter.py:57-109 | an extraction failure is a client error; otherwise the page markdown, the images and the page count are kept |
| Converter.RunPymupdfPlainText | src/pdf2md/converter.py:70-96 | when the joined pages mention no image by its absolute path, the markdown is the pages joined by newlines |
| Converter.RunPymupdfOneImage | src/pdf2md/converter.py:70-96 | with one image, mentioned once by its absolute path, the markdown is the joined pages with that path replaced by the bare name |
| Converter.PagesWithFormulas | src/pdf2md/converter.py:153 | the set of pages some region lies on; `Rendered` and `EveryRegionRendered` state that exactly these pages are rendered |
| Converter.Rendered | src/pdf2md/converter.py:153-161 | exactly the pages with formulas are rendered, each by the renderer |
| Converter.EveryRegionRendered | src/pdf2md/converter.py:153-161 | every region's page is rendered |
| Converter.NoRegionsNoOcr | src/pdf2md/converter.py:141-144 | without regions the pages are joined, and neither the renderer nor the model's answers affect the result |
| Converter.AllRegionsNoLatex | src/pdf2md/converter.py:136-139 | the regions found across the pages carry no LaTeX yet |
| Converter.RunFormulaOcrFails | src/pdf2md/converter.py:112-174 | formula OCR fails only when, with regions and a key, some region cannot be cropped from its rendered page; the default batch size never fails |
| Converter.NothingReadJoins | src/pdf2md/converter.py:165-174 | when every request fails, the pages come back joined and unpatched |
| Converter.RunFormulaOcr | src/pdf2md/converter.py:112-174 | formula OCR fails only when regions were found and a key was given (`RunFormulaOcrFails` names the failing crop; `NoRegionsNoOcr`, `NothingReadJoins` and `RunFormulaOcrWithoutKey` the joined results) |
| Converter.RunFormulaOcrWithoutKey | src/pdf2md/converter.py:112-174 | without an API key the pages come back joined and unpatched |
| Converter.AllRegions | src/pdf2md/converter.py:133-139 | the regions of every page in page order; `AllRegionsNoLatex` states that none carries LaTeX yet |
| Converter.RunHybrid | src/pdf2md/converter.py:177-222 | an extraction error propagates; otherwise the result succeeds and keeps the extracted images |
| Converter.HybridFallsBack | src/pdf2md/converter.py:197-206 | any formula-OCR failure degrades to the unpatched result |
| Converter.HybridKeepsPatchedText | src/pdf2md/converter.py:197-222 | when formula OCR succeeds with text that mentions no image path, the result is that text with the plain extraction's images and page count |
| Converter.HybridRewritesImagePath | src/pdf2md/converter.py:208-216 | when the patched text mentions the one extracted image once by its absolute path, the result has that path replaced by the bare name and the rest of the text kept |
| Converter.HybridWithoutFormulasIsPlain | src/pdf2md/converter.py:177-222 | a document in which no formula is found or every request fails converts exactly as the plain extraction does |

## Left out

- Network and prompt: the HTTP request to the vision model and the prompt text
  (formula_ocr.py:305-371) are left out. So is base64 encoding. The answer text of
  each batch is an input, and `None` stands for a failed or unparsable request.
- Concurrency: the thread pool and `as_completed` (formula_ocr.py:438-455), and
  `max_workers`. The batches' results are merged by a fold, and `MergeOrderFree` /
  `AnswersInAnyOrder` prove that the completion order does not matter.
- Rendering: `page.get_pixmap` and PNG encoding, and the pixel content of images.
  The renderer is a parameter from page number to bitmap size, and a crop is
  described by its size and the source rectangle pasted at (5, 5).
- Logging, and the progress and skip counters, which only feed the log.
- `build_search_pattern`'s `re.error` branch (formula_ocr.py:260-264) is left out.
  Every character is passed through `re.escape`, so the pattern always compiles.
- `convert_pdf`, its timeout and its use of a temporary directory, the service's
  entry points, the cache, the downloader and configuration are left out. Only the
  error types they raise are modelled.
- `_run_pymupdf` is modelled only through its page-chunk branch. The ImportError path
  and the `pymupdf.open` / `to_markdown` calls are one input: the chunks, or `None`
  for failure. The listing and deletion of the image directory are another: the list
  of images.
- Pages whose layout or rendering raises inside `_run_formula_ocr` are not modelled.
  `_run_hybrid` would fall back to the plain result, which `HybridFallsBack` shows for
  the failures that are modelled.
- Geometry.Union: models pymupdf's `Rect |=` as a component-wise min/max. It does not
  model the special handling of empty and infinite rectangles.
- Crop.Trunc: uses exact reals in place of double-precision floats, so the scale
  `dpi / 72.0` and its products carry no rounding error.
- Merge.CanMerge: the overlap ratio and the gap are compared in exact reals, not
  floats.
- Regions.BuildRegion: the width ratio `union_rect.width / page_width > 0.3`
  (formula_ocr.py:181-182) is compared in exact reals, not doubles, so a ratio within
  rounding distance of 0.3 may be classified differently.
- FormulaOcr.ReadMatch: reads a digit string of any length. CPython 3.10.7 and later
  refuse `int()` on more than 4300 digits with a `ValueError`. That error escapes
  `_ocr_batch_openrouter` and the batch counts as failed (formula_ocr.py:446-449), so
  all of its other lines are lost. When the number's value lies in 1..|batch|, which a
  numeral this long reaches only through leading zeros, the model records that region
  and keeps the batch's other lines, where the source loses the whole batch.
- SearchPattern.SearchLeftmost: fixes where the hit starts, and `SearchStopsGreedily`
  fixes the shape of its end. When the anchors could be placed in more than one way,
  the backtracking choice among them is stated only through the matcher `Match`. It is
  not characterised as a property of the language, such as the lexicographically
  greatest filler counts.
- Text.IsDigit: `\d` matches only ASCII digits here. Python's `\d` on `str` also
  accepts the other Unicode decimal digits, and `int()` reads them.
- FormulaOcr.MatchNumbered: models the regex on lines without a newline. Every line it
  sees comes from `split("\n")`, so `$` before a final newline never arises.
- Converter.NormalizeImagePaths: the image directory is the fixed path the source
  writes to, so the two `replace` calls per image spell the same string.
- OcrBatches.OcrFormulas: Python mutates the region objects in place, and the caller's
  list aliases the result. The model returns a new list, which is what its only
  caller, `_run_formula_ocr` (converter.py:166-174), uses.
