/** `ocr_formulas` and the parsing of the vision model's numbered answer: regions are cropped,
    cut into batches, each batch is answered by an external model (a parameter here), the
    answers are parsed into index-to-LaTeX maps, merged, and written back into the regions. */
module FormulaOcr {
  import opened Results
  import opened Text
  import opened Regions
  import opened Crop
  import Detection

  /** Formula images sent per request. */
  const DefaultBatchSize: int := 30

  /** `s` is `"???"`, what the model is told to answer for an image it cannot read. */
  predicate IsUnreadable(s: string) {
    |s| == 3 && s[0] == '?' && s[1] == '?' && s[2] == '?'
  }

  /** A cropped formula image labelled with the position of its region in the region list. */
  datatype Item = Item(index: nat, image: Padded)

  // ---------------------------------------------------------------------------------------
  // Parsing one answer
  // ---------------------------------------------------------------------------------------

  /** End of the run of digits of `s` that starts at `from`. */
  function DigitsEnd(s: string, from: nat): (n: nat)
    requires from <= |s|
    ensures from <= n <= |s|
    decreases |s| - from
  {
    if from < |s| && IsDigit(s[from]) then DigitsEnd(s, from + 1) else from
  }

  /** Length of the run of digits that starts `s`. */
  function DigitPrefix(s: string): (n: nat)
    ensures n <= |s|
  {
    DigitsEnd(s, 0)
  }

  lemma {:induction false} DigitsEndMeans(s: string, from: nat)
    requires from <= |s|
    ensures forall i :: from <= i < DigitsEnd(s, from) ==> IsDigit(s[i])
    ensures DigitsEnd(s, from) < |s| ==> !IsDigit(s[DigitsEnd(s, from)])
    decreases |s| - from
  {
    if from < |s| && IsDigit(s[from]) {
      DigitsEndMeans(s, from + 1);
    }
  }

  /** The digit prefix is all digits, and the character after it is not a digit. */
  lemma DigitPrefixMeans(s: string)
    ensures AllDigits(s[..DigitPrefix(s)])
    ensures DigitPrefix(s) < |s| ==> !IsDigit(s[DigitPrefix(s)])
  {
    DigitsEndMeans(s, 0);
  }

  predicate IsSeparator(c: char) {
    c == ':' || c == '.'
  }

  /** A numbered answer line: the digits of its number (group 1) and the text after it
      (group 2). */
  datatype Numbered = Numbered(digits: string, text: string)

  /** `re.match(r"^(\d+)[:.]\s*(.+)$", line)` on a line without a newline (every line here
      comes from splitting at newlines): groups 1 and 2. The greedy `\s*` leaves one character to `(.+)` when only
      whitespace follows the separator. */
  function MatchNumbered(line: string): (r: Option<Numbered>)
    ensures r.Some? ==> r.value.digits != [] && AllDigits(r.value.digits) && r.value.text != []
  {
    var k := DigitPrefix(line);
    if k == 0 || k >= |line| - 1 || !IsSeparator(line[k]) then None
    else
      DigitPrefixMeans(line);
      Some(Numbered(line[..k], Trailing(line[k + 1..])))
  }

  /** `\s*(.+)$` on a non-empty rest of a line: the text after the blanks, or the last
      character when only blanks are left. It is always a non-empty suffix with only blanks
      before it. */
  function Trailing(rest: string): (t: string)
    requires rest != []
    ensures t != [] && |t| <= |rest|
  {
    var body := LStrip(rest);
    if body != [] then body else rest[|rest| - 1..]
  }

  lemma TrailingMeans(rest: string)
    requires rest != []
    ensures var t := Trailing(rest);
            t == rest[|rest| - |t|..] && BlankBetween(rest, 0, |rest| - |t|)
  {
    LStripSuffix(rest);
  }

  /** Exactly the lines that start with digits followed by a separator and at least one more
      character match. */
  lemma MatchNumberedWhen(line: string)
    ensures MatchNumbered(line).Some? <==>
              0 < DigitPrefix(line) < |line| - 1 && IsSeparator(line[DigitPrefix(line)])
  {
  }

  /** What a match means: the line is the digits (group 1), a separator, blanks, and the
      matched text (group 2), which ends the line. */
  lemma MatchNumberedParts(line: string, m: Numbered)
    requires MatchNumbered(line) == Some(m)
    ensures var k := |m.digits|;
            k + 1 + |m.text| <= |line| && m.digits == line[..k] && IsSeparator(line[k]) &&
            m.text == line[|line| - |m.text|..] && BlankBetween(line, k + 1, |line| - |m.text|)
  {
    MatchNumberedGroups(line, m);
    TrailingSlice(line, DigitPrefix(line));
  }

  lemma MatchNumberedGroups(line: string, m: Numbered)
    requires MatchNumbered(line) == Some(m)
    ensures var k := DigitPrefix(line);
            k == |m.digits| && k < |line| - 1 && m.digits == line[..k] && IsSeparator(line[k]) &&
            m.text == Trailing(line[k + 1..])
  {
  }

  lemma TrailingSlice(line: string, k: nat)
    requires k < |line| - 1
    ensures var t := Trailing(line[k + 1..]);
            |t| <= |line| - k - 1 && t == line[|line| - |t|..] && BlankBetween(line, k + 1, |line| - |t|)
  {
    var rest := line[k + 1..];
    var t := Trailing(rest);
    TrailingMeans(rest);
    forall i | k + 1 <= i < |line| - |t| ensures IsSpace(line[i]) {
      assert line[i] == rest[i - k - 1];
    }
  }

  /** The digit prefix of digits followed by a non-digit is exactly those digits. */
  lemma DigitPrefixOf(d: string, rest: string)
    requires AllDigits(d)
    requires rest != [] ==> !IsDigit(rest[0])
    ensures DigitPrefix(d + rest) == |d|
  {
    var s := d + rest;
    forall from | 0 <= from <= |d|
      ensures DigitsEnd(s, from) == |d|
    {
      DigitsEndFrom(s, |d|, from);
    }
  }

  lemma {:induction false} DigitsEndFrom(s: string, end: nat, from: nat)
    requires from <= end <= |s|
    requires forall i :: from <= i < end ==> IsDigit(s[i])
    requires end < |s| ==> !IsDigit(s[end])
    ensures DigitsEnd(s, from) == end
    decreases end - from
  {
    if from < end {
      DigitsEndFrom(s, end, from + 1);
    }
  }

  /** Any line of the shape the model is asked for, digits, a separator, blanks, then text that
      starts with a non-space, matches with that number and that text. */
  lemma MatchNumberedShape(d: string, sep: char, ws: string, t: string)
    requires |d| >= 1 && AllDigits(d) && IsSeparator(sep)
    requires IsBlank(ws) && t != [] && !IsSpace(t[0])
    ensures MatchNumbered(d + [sep] + ws + t) == Some(Numbered(d, t))
  {
    var line := d + [sep] + ws + t;
    assert DigitPrefix(line) == |d| by {
      assert line == d + ([sep] + ws + t);
      DigitPrefixOf(d, [sep] + ws + t);
    }
    assert IsSeparator(line[|d|]);
    assert LStrip(line[|d| + 1..]) == t by {
      assert line[|d| + 1..] == ws + t;
      LStripBlankPrefix(ws, t);
    }
    assert line[..|d|] == d;
    MatchNumberedAt(line, |d|, t);
  }

  /** Proof step of `MatchNumberedShape`: the regex's groups once the digit prefix and the
      left-stripped rest are known. */
  lemma MatchNumberedAt(line: string, k: nat, t: string)
    requires DigitPrefix(line) == k && 0 < k < |line| - 1 && IsSeparator(line[k])
    requires t != [] && LStrip(line[k + 1..]) == t
    ensures MatchNumbered(line) == Some(Numbered(line[..k], t))
  {
  }

  /** A run of `n` dollar signs. */
  function Dollars(n: nat): (r: string)
    ensures |r| == n
  {
    if n == 0 then [] else Dollars(n - 1) + ['$']
  }

  lemma {:induction false} DollarsCons(m: nat)
    requires m > 0
    ensures Dollars(m) == ['$'] + Dollars(m - 1)
  {
    if m > 1 {
      DollarsCons(m - 1);
    }
  }

  /** `s` with its leading run of dollar signs removed (`^\$+`). */
  function DropLeadingDollars(s: string): (r: string)
    ensures |r| <= |s|
  {
    if s != [] && s[0] == '$' then DropLeadingDollars(s[1..]) else s
  }

  /** `s` with its trailing run of dollar signs removed (`\$+$`). */
  function DropTrailingDollars(s: string): (r: string)
    ensures |r| <= |s|
  {
    if s != [] && s[|s| - 1] == '$' then DropTrailingDollars(s[..|s| - 1]) else s
  }

  /** `re.sub(r"^\$+|\$+$", "", latex).strip()`: stray `$` delimiters and the blanks inside
      them removed. A string of dollar signs only loses them all to the leading run. */
  function StripDelimiters(latex: string): (r: string)
    ensures |r| <= |latex|
    ensures r != [] ==> !IsSpace(r[0]) && !IsSpace(r[|r| - 1])
  {
    Strip(DropTrailingDollars(DropLeadingDollars(latex)))
  }

  /** Dollars in front of text that does not start with one are all dropped. */
  lemma {:induction false} DropLeadingOf(m: nat, x: string)
    requires x != [] ==> x[0] != '$'
    ensures DropLeadingDollars(Dollars(m) + x) == x
  {
    if m == 0 {
      assert Dollars(0) + x == x;
    } else {
      assert Dollars(m) + x == ['$'] + (Dollars(m - 1) + x) by {
        DollarsCons(m);
      }
      DropLeadingOf(m - 1, x);
    }
  }

  /** Dollars behind text that does not end with one are all dropped. */
  lemma {:induction false} DropTrailingOf(y: string, n: nat)
    requires y != [] ==> y[|y| - 1] != '$'
    ensures DropTrailingDollars(y + Dollars(n)) == y
  {
    if n == 0 {
      assert y + Dollars(0) == y;
    } else {
      var s := y + Dollars(n);
      assert s[..|s| - 1] == y + Dollars(n - 1);
      DropTrailingOf(y, n - 1);
    }
  }

  /** LaTeX that the model wrapped in `$` or `$$` delimiters, with blanks inside them, is
      recovered exactly. */
  lemma StripDelimitersUnwraps(m: nat, ws1: string, latex: string, ws2: string, n: nat)
    requires IsBlank(ws1) && IsBlank(ws2)
    requires latex != [] && !IsSpace(latex[0]) && !IsSpace(latex[|latex| - 1])
    requires latex[0] != '$' && latex[|latex| - 1] != '$'
    ensures StripDelimiters(Dollars(m) + ws1 + latex + ws2 + Dollars(n)) == latex
  {
    var y := ws1 + latex + ws2;
    EndsNotDollar(ws1, latex, ws2);
    Regroup(Dollars(m), ws1, latex, ws2, Dollars(n));
    DropLeadingOf(m, y + Dollars(n));
    DropTrailingOf(y, n);
    StripPadded(ws1, latex, ws2);
  }

  /** Blanks are not dollar signs, so padded LaTeX without outer dollars has none either. */
  lemma EndsNotDollar(ws1: string, latex: string, ws2: string)
    requires IsBlank(ws1) && IsBlank(ws2)
    requires latex != [] && latex[0] != '$' && latex[|latex| - 1] != '$'
    ensures var y := ws1 + latex + ws2; y != [] && y[0] != '$' && y[|y| - 1] != '$'
  {
    var y := ws1 + latex + ws2;
    assert y[0] == if ws1 != [] then ws1[0] else latex[0];
    assert y[|y| - 1] == if ws2 != [] then ws2[|ws2| - 1] else latex[|latex| - 1];
  }

  lemma Regroup(a: string, b: string, c: string, d: string, e: string)
    ensures a + b + c + d + e == a + ((b + c + d) + e)
  {
  }

  /** A result of one answer line: the region index it is about and its LaTeX. */
  datatype Reading = Reading(index: nat, latex: string)

  /** The region indices of a batch. */
  function BatchIndices(batch: seq<Item>): set<nat>
  {
    set j | 0 <= j < |batch| :: batch[j].index
  }

  /** One line of the answer to `batch`: stripped, matched, its LaTeX stripped and checked
      against the unreadable marker, its delimiters removed, and its number (counted from 1)
      mapped back to a region index when it is in range. */
  function ParseLine(line: string, batch: seq<Item>): (r: Option<Reading>)
    ensures r.Some? ==> exists j :: 0 <= j < |batch| && r.value.index == batch[j].index
  {
    var l := Strip(line);
    if l == [] then None
    else match MatchNumbered(l)
      case None => None
      case Some(m) => ReadMatch(m, batch)
  }

  /** The matched groups of one line read against `batch`. */
  function ReadMatch(m: Numbered, batch: seq<Item>): (r: Option<Reading>)
    requires AllDigits(m.digits)
    ensures r.Some? ==> exists j :: 0 <= j < |batch| && r.value.index == batch[j].index
  {
    match CleanLatex(m.text)
    case None => None
    case Some(latex) =>
      var n := DigitsValue(m.digits);
      if 1 <= n <= |batch| then Some(Reading(batch[n - 1].index, latex)) else None
  }

  /** Group 2 stripped; nothing when it is blank or the unreadable marker, and otherwise with
      its stray delimiters removed. */
  function CleanLatex(text: string): (r: Option<string>)
    ensures r.Some? ==> |r.value| <= |text|
    ensures r.Some? && r.value != [] ==> !IsSpace(r.value[0]) && !IsSpace(r.value[|r.value| - 1])
  {
    var latex := Strip(text);
    if latex == [] || IsUnreadable(latex) then None else Some(StripDelimiters(latex))
  }

  /** The answer's lines read in order; a later line about the same region wins. */
  function ParseLines(lines: seq<string>, batch: seq<Item>): (r: map<nat, string>)
    ensures r.Keys <= BatchIndices(batch)
    decreases |lines|
  {
    if lines == [] then map[]
    else Record(ParseLines(lines[..|lines| - 1], batch), ParseLine(lines[|lines| - 1], batch))
  }

  /** `results[region_idx] = latex` for a line that reads as a result. */
  function Record(m: map<nat, string>, rd: Option<Reading>): (r: map<nat, string>)
    ensures rd.None? ==> r == m
    ensures rd.Some? ==> r.Keys == m.Keys + {rd.value.index} && r[rd.value.index] == rd.value.latex
    ensures rd.Some? ==> forall k :: k in m && k != rd.value.index ==> r[k] == m[k]
  {
    if rd.Some? then m[rd.value.index := rd.value.latex] else m
  }

  /** The parsing in `_ocr_batch_openrouter`: strip the answer, split it at newlines, and read
      each line. Only indices of the batch's own regions can appear. */
  function ParseResponse(text: string, batch: seq<Item>): (r: map<nat, string>)
    ensures r.Keys <= BatchIndices(batch)
  {
    ParseLines(SplitLines(Strip(text)), batch)
  }

  /** Lines are read in order: a line that reads as a result sets its region's LaTeX, even
      over an earlier line about the same region, and leaves the other regions alone; any
      other line changes nothing. */
  lemma LastLineWins(lines: seq<string>, batch: seq<Item>, line: string)
    ensures var before := ParseLines(lines, batch);
            var after := ParseLines(lines + [line], batch);
            match ParseLine(line, batch)
            case None => after == before
            case Some(rd) =>
              rd.index in after && after[rd.index] == rd.latex &&
              forall k :: k in before && k != rd.index ==> k in after && after[k] == before[k]
  {
    assert (lines + [line])[..|lines|] == lines;
  }

  /** LaTeX the model can hand back as asked: one line, not blank at its ends, no stray
      delimiters at its ends, and not the unreadable marker. */
  predicate WellFormedLatex(latex: string) {
    latex != [] && '\n' !in latex && !IsUnreadable(latex) &&
    !IsSpace(latex[0]) && !IsSpace(latex[|latex| - 1]) &&
    latex[0] != '$' && latex[|latex| - 1] != '$'
  }

  /** The answer line the prompt asks for: `"<n>: <latex>"`. */
  function FormatLine(n: nat, latex: string): (r: string)
    ensures '\n' !in latex ==> '\n' !in r
  {
    var d := DecimalString(n);
    assert forall i :: 0 <= i < |d| ==> d[i] != '\n';
    d + ": " + latex
  }

  /** Proof step of `ParseFormattedLine`: a line that is not blank reads through its match, if
      it has one. */
  lemma ParseLineMatched(line: string, batch: seq<Item>, m: Numbered)
    requires Strip(line) != [] && MatchNumbered(Strip(line)) == Some(m)
    ensures ParseLine(line, batch) == ReadMatch(m, batch)
  {
  }

  /** Readable LaTeX under a number in range becomes the LaTeX for the region of that image. */
  lemma ReadMatchReadable(m: Numbered, batch: seq<Item>, latex: string, n: nat)
    requires AllDigits(m.digits)
    requires CleanLatex(m.text) == Some(latex) && n == DigitsValue(m.digits) && 1 <= n <= |batch|
    ensures ReadMatch(m, batch) == Some(Reading(batch[n - 1].index, latex))
  {
  }

  /** LaTeX without outer blanks, delimiters or the unreadable marker is kept as it is. */
  lemma CleanLatexKeeps(latex: string)
    requires WellFormedLatex(latex)
    ensures CleanLatex(latex) == Some(latex)
  {
    assert Strip(latex) == latex by {
      StripUnchanged(latex);
    }
    assert StripDelimiters(latex) == latex by {
      StripDelimitersUnwraps(0, [], latex, [], 0);
      assert Dollars(0) + [] + latex + [] + Dollars(0) == latex;
    }
  }

  /** A line in the requested format reads back as its region and its LaTeX. */
  lemma ParseFormattedLine(n: nat, latex: string, batch: seq<Item>)
    requires 1 <= n <= |batch|
    requires WellFormedLatex(latex)
    ensures ParseLine(FormatLine(n, latex), batch) == Some(Reading(batch[n - 1].index, latex))
  {
    var m := Numbered(DecimalString(n), latex);
    FormatLineStripped(n, latex);
    FormatLineMatches(n, latex);
    DecimalRoundTrip(n);
    CleanLatexKeeps(latex);
    ParseLineMatched(FormatLine(n, latex), batch, m);
    ReadMatchReadable(m, batch, latex, n);
  }

  lemma FormatLineStripped(n: nat, latex: string)
    requires WellFormedLatex(latex)
    ensures Strip(FormatLine(n, latex)) == FormatLine(n, latex)
  {
    var d := DecimalString(n);
    var line := FormatLine(n, latex);
    assert line[0] == d[0];
    assert line[|line| - 1] == latex[|latex| - 1];
    StripUnchanged(line);
  }

  lemma FormatLineMatches(n: nat, latex: string)
    requires WellFormedLatex(latex)
    ensures MatchNumbered(FormatLine(n, latex)) == Some(Numbered(DecimalString(n), latex))
  {
    var d := DecimalString(n);
    assert FormatLine(n, latex) == d + [':'] + [' '] + latex;
    assert IsBlank([' ']);
    MatchNumberedShape(d, ':', [' '], latex);
  }

  /** Region indices strictly increase along a batch (and along the whole image list). */
  predicate Increasing(items: seq<Item>) {
    forall i, j :: 0 <= i < j < |items| ==> items[i].index < items[j].index
  }

  /** The answer lines for `latexes`, numbered from 1. */
  function FormattedLines(latexes: seq<string>): (r: seq<string>)
    ensures |r| == |latexes|
  {
    seq(|latexes|, i requires 0 <= i < |latexes| => FormatLine(i + 1, latexes[i]))
  }

  /** The map an answer should produce: the i-th LaTeX for the i-th image's region. */
  function Expected(batch: seq<Item>, latexes: seq<string>, upto: nat): (r: map<nat, string>)
    requires Increasing(batch) && upto <= |latexes| <= |batch|
  {
    map i | 0 <= i < upto :: batch[i].index := latexes[i]
  }

  lemma {:induction false} ParseFormattedLines(batch: seq<Item>, latexes: seq<string>, upto: nat)
    requires Increasing(batch) && upto <= |latexes| <= |batch|
    requires forall i :: 0 <= i < |latexes| ==> WellFormedLatex(latexes[i])
    ensures ParseLines(FormattedLines(latexes)[..upto], batch) == Expected(batch, latexes, upto)
  {
    if upto > 0 {
      ParseFormattedLines(batch, latexes, upto - 1);
      ParseFormattedStep(batch, latexes, upto);
    } else {
      assert Expected(batch, latexes, 0) == map[];
    }
  }

  lemma ParseFormattedStep(batch: seq<Item>, latexes: seq<string>, upto: nat)
    requires Increasing(batch) && 0 < upto <= |latexes| <= |batch|
    requires WellFormedLatex(latexes[upto - 1])
    requires ParseLines(FormattedLines(latexes)[..upto - 1], batch) == Expected(batch, latexes, upto - 1)
    ensures ParseLines(FormattedLines(latexes)[..upto], batch) == Expected(batch, latexes, upto)
  {
    var lines := FormattedLines(latexes);
    ParseLinesPrefix(lines, batch, upto);
    assert lines[upto - 1] == FormatLine(upto, latexes[upto - 1]);
    ParseFormattedLine(upto, latexes[upto - 1], batch);
    ExpectedStep(batch, latexes, upto);
    RecordStep(ParseLines(lines[..upto], batch), ParseLines(lines[..upto - 1], batch),
               ParseLine(lines[upto - 1], batch), Expected(batch, latexes, upto),
               Expected(batch, latexes, upto - 1), batch[upto - 1].index, latexes[upto - 1]);
  }

  lemma RecordStep(now: map<nat, string>, prev: map<nat, string>, read: Option<Reading>,
                   expected: map<nat, string>, expectedPrev: map<nat, string>, k: nat, v: string)
    requires now == Record(prev, read) && prev == expectedPrev && read == Some(Reading(k, v))
    requires expected == expectedPrev[k := v]
    ensures now == expected
  {
  }

  /** Reading the first `j` lines is reading the first `j - 1` and then line `j`. */
  lemma ParseLinesPrefix(lines: seq<string>, batch: seq<Item>, j: nat)
    requires 0 < j <= |lines|
    ensures ParseLines(lines[..j], batch) ==
            Record(ParseLines(lines[..j - 1], batch), ParseLine(lines[j - 1], batch))
  {
    assert lines[..j][..j - 1] == lines[..j - 1];
  }

  lemma ExpectedStep(batch: seq<Item>, latexes: seq<string>, upto: nat)
    requires Increasing(batch) && 0 < upto <= |latexes| <= |batch|
    ensures Expected(batch, latexes, upto) ==
            Expected(batch, latexes, upto - 1)[batch[upto - 1].index := latexes[upto - 1]]
  {
    var prev := Expected(batch, latexes, upto - 1);
    var now := Expected(batch, latexes, upto);
    forall k | k in now ensures k in prev[batch[upto - 1].index := latexes[upto - 1]] {
      var i :| 0 <= i < upto && batch[i].index == k;
      if i < upto - 1 {
        assert k in prev;
      }
    }
    forall i | 0 <= i < upto - 1 ensures batch[i].index != batch[upto - 1].index {
    }
  }

  /** The round trip of the answer format: an answer written exactly as the prompt asks,
      one line per image in order, is read back as the map from each image's region to its
      LaTeX. */
  lemma ParseFormattedResponse(batch: seq<Item>, latexes: seq<string>)
    requires Increasing(batch) && |latexes| <= |batch|
    requires forall i :: 0 <= i < |latexes| ==> WellFormedLatex(latexes[i])
    ensures ParseResponse(Join(FormattedLines(latexes), "\n"), batch)
            == Expected(batch, latexes, |latexes|)
  {
    var lines := FormattedLines(latexes);
    var text := Join(lines, "\n");
    assert ParseLines(lines, batch) == Expected(batch, latexes, |latexes|) by {
      ParseFormattedLines(batch, latexes, |latexes|);
      assert lines[..|latexes|] == lines;
    }
    if latexes == [] {
      assert SplitLines(Strip(text)) == [[]];
      assert ParseLines([[]], batch) == map[];
    } else {
      assert SplitLines(Strip(text)) == lines by {
        FormattedSplit(latexes);
      }
      ResponseOfLines(text, lines, batch, Expected(batch, latexes, |latexes|));
    }
  }

  lemma ResponseOfLines(text: string, lines: seq<string>, batch: seq<Item>, expected: map<nat, string>)
    requires SplitLines(Strip(text)) == lines && ParseLines(lines, batch) == expected
    ensures ParseResponse(text, batch) == expected
  {
  }

  /** A nonempty formatted answer has no outer blanks and splits back into its lines. */
  lemma FormattedSplit(latexes: seq<string>)
    requires 0 < |latexes|
    requires forall i :: 0 <= i < |latexes| ==> WellFormedLatex(latexes[i])
    ensures SplitLines(Strip(Join(FormattedLines(latexes), "\n"))) == FormattedLines(latexes)
  {
    var lines := FormattedLines(latexes);
    FormattedStripped(latexes);
    forall k | 0 <= k < |lines| ensures '\n' !in lines[k] {
      assert lines[k] == FormatLine(k + 1, latexes[k]);
    }
    SplitJoinLines(lines);
  }

  lemma FormattedStripped(latexes: seq<string>)
    requires 0 < |latexes|
    requires WellFormedLatex(latexes[|latexes| - 1])
    ensures Strip(Join(FormattedLines(latexes), "\n")) == Join(FormattedLines(latexes), "\n")
  {
    var lines := FormattedLines(latexes);
    var first := lines[0];
    assert first == DecimalString(1) + ": " + latexes[0];
    assert first[0] == DecimalString(1)[0];
    JoinFirst(lines, "\n");
    var last := lines[|lines| - 1];
    var latex := latexes[|latexes| - 1];
    assert last == FormatLine(|latexes|, latex);
    assert last[|last| - 1] == latex[|latex| - 1];
    JoinLast(lines, "\n");
    StripUnchanged(Join(lines, "\n"));
  }
}
