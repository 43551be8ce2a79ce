/** The font classifier: does a font name belong to the Computer Modern or AMS math families? */
module MathFonts {

  /** The alternatives of the anchored, case-insensitive font-name pattern, in pattern order. */
  const MathFontPrefixes: seq<string> := ["CMMI", "CMSY", "CMEX", "CMR", "CMSS", "MSBM", "EUFM", "MSAM"]

  predicate IsUpperAscii(c: char) { 'A' <= c <= 'Z' }

  predicate IsLowerAscii(c: char) { 'a' <= c <= 'z' }

  function ToLowerAscii(c: char): char
  {
    if IsUpperAscii(c) then (c as int + 32) as char else c
  }

  function ToUpperAscii(c: char): char
  {
    if IsLowerAscii(c) then (c as int - 32) as char else c
  }

  /** The characters a case-insensitive Python pattern letter `letter` accepts: both ASCII
      cases, plus U+0130 and U+0131 for I, U+017F (long s) for S and U+212A (Kelvin) for K. */
  predicate FoldsTo(c: char, letter: char)
  {
    || c == letter
    || c == ToLowerAscii(letter)
    || (letter == 'I' && (c == '\U{0130}' || c == '\U{0131}'))
    || (letter == 'S' && c == '\U{017F}')
    || (letter == 'K' && c == '\U{212A}')
  }

  predicate AllUpper(p: string) {
    forall i :: 0 <= i < |p| ==> IsUpperAscii(p[i])
  }

  /** `s` begins with `prefix`, compared letter by letter case-insensitively. */
  predicate StartsWithFolded(s: string, prefix: string)
  {
    |prefix| <= |s| && forall i :: 0 <= i < |prefix| ==> FoldsTo(s[i], prefix[i])
  }

  /** The simple lower-case mapping, restricted to the characters whose lower case is an
      ASCII letter; every other character is its own image as far as matching goes. */
  function RegexLower(c: char): char
  {
    if IsUpperAscii(c) then ToLowerAscii(c)
    else if c == '\U{0130}' then 'i'
    else if c == '\U{212A}' then 'k'
    else c
  }

  /** How the regular-expression engine compares one input character with one pattern letter
      under IGNORECASE: lower-case the input and look it up in the letter's equivalence class. */
  function LetterMatches(c: char, letter: char): (b: bool)
    requires IsUpperAscii(letter)
    ensures b <==> FoldsTo(c, letter)
  {
    var lo := ToLowerAscii(letter);
    var lc := RegexLower(c);
    LetterMatchesFolds(c, letter);
    || lc == lo
    || (lo == 'i' && lc == '\U{0131}')
    || (lo == 's' && lc == '\U{017F}')
  }

  lemma LetterMatchesFolds(c: char, letter: char)
    requires IsUpperAscii(letter)
    ensures var lo := ToLowerAscii(letter); var lc := RegexLower(c);
      (|| lc == lo || (lo == 'i' && lc == '\U{0131}') || (lo == 's' && lc == '\U{017F}'))
      <==> FoldsTo(c, letter)
  {
    var lo := ToLowerAscii(letter);
    assert lo as int == letter as int + 32;
    if IsUpperAscii(c) {
      assert RegexLower(c) as int == c as int + 32;
    } else if c == '\U{0130}' || c == '\U{212A}' {
    } else {
      assert RegexLower(c) == c;
    }
  }

  /** Matching one alternative of the pattern at the start of the name. */
  function MatchesPrefix(s: string, prefix: string): (b: bool)
    requires AllUpper(prefix)
    ensures b <==> StartsWithFolded(s, prefix)
  {
    if prefix == [] then true
    else if s == [] then false
    else LetterMatches(s[0], prefix[0]) && MatchesPrefix(s[1..], prefix[1..])
  }

  /** Trying the alternatives in turn, as the regex alternation does. */
  function MatchesAnyPrefix(s: string, prefixes: seq<string>): (b: bool)
    requires forall k :: 0 <= k < |prefixes| ==> AllUpper(prefixes[k])
    ensures b <==> exists k :: 0 <= k < |prefixes| && StartsWithFolded(s, prefixes[k])
  {
    if prefixes == [] then false
    else MatchesPrefix(s, prefixes[0]) || MatchesAnyPrefix(s, prefixes[1..])
  }

  /** `is_math_font`: the name starts, ignoring case, with one of the math family names. */
  function IsMathFont(font: string): (b: bool)
    ensures b <==> exists k :: 0 <= k < |MathFontPrefixes| && StartsWithFolded(font, MathFontPrefixes[k])
  {
    MatchesAnyPrefix(font, MathFontPrefixes)
  }

  function ToUpperAsciiString(s: string): (r: string)
    ensures |r| == |s|
    ensures forall i :: 0 <= i < |s| ==> r[i] == ToUpperAscii(s[i])
  {
    if s == [] then [] else [ToUpperAscii(s[0])] + ToUpperAsciiString(s[1..])
  }

  /** The classification does not depend on the ASCII case of the name. */
  lemma MathFontIgnoresCase(font: string)
    ensures IsMathFont(font) == IsMathFont(ToUpperAsciiString(font))
  {
    MathFontToUpper(font);
    MathFontFromUpper(font);
  }

  lemma MathFontToUpper(font: string)
    ensures IsMathFont(font) ==> IsMathFont(ToUpperAsciiString(font))
  {
    if IsMathFont(font) {
      var k :| 0 <= k < |MathFontPrefixes| && StartsWithFolded(font, MathFontPrefixes[k]);
      PrefixUpper(k);
      StartsWithFoldedUpper(font, MathFontPrefixes[k]);
      PrefixMakesMathFont(ToUpperAsciiString(font), k);
    }
  }

  lemma MathFontFromUpper(font: string)
    ensures IsMathFont(ToUpperAsciiString(font)) ==> IsMathFont(font)
  {
    var up := ToUpperAsciiString(font);
    if IsMathFont(up) {
      var k :| 0 <= k < |MathFontPrefixes| && StartsWithFolded(up, MathFontPrefixes[k]);
      UpperPrefixWitness(font, k);
      PrefixMakesMathFont(font, k);
    }
  }

  lemma UpperPrefixWitness(font: string, k: nat)
    requires k < |MathFontPrefixes| && StartsWithFolded(ToUpperAsciiString(font), MathFontPrefixes[k])
    ensures StartsWithFolded(font, MathFontPrefixes[k])
  {
    PrefixUpper(k);
    StartsWithFoldedUpper(font, MathFontPrefixes[k]);
  }

  lemma PrefixMakesMathFont(font: string, k: nat)
    requires k < |MathFontPrefixes| && StartsWithFolded(font, MathFontPrefixes[k])
    ensures IsMathFont(font)
  {
  }

  lemma StartsWithFoldedUpper(font: string, p: string)
    requires AllUpper(p)
    ensures StartsWithFolded(font, p) == StartsWithFolded(ToUpperAsciiString(font), p)
  {
    var up := ToUpperAsciiString(font);
    forall i | 0 <= i < |p| && i < |font| ensures FoldsTo(font[i], p[i]) == FoldsTo(up[i], p[i]) {
      FoldsToUpper(font[i], p[i]);
    }
  }

  lemma FoldsToUpper(c: char, letter: char)
    requires IsUpperAscii(letter)
    ensures FoldsTo(c, letter) == FoldsTo(ToUpperAscii(c), letter)
  {
    if IsLowerAscii(c) {
      assert ToUpperAscii(c) as int == c as int - 32;
      assert ToLowerAscii(letter) as int == letter as int + 32;
    }
  }

  /** Every math family name is at least three letters long and starts with C, M or E. */
  lemma MathFontStart(font: string)
    requires IsMathFont(font)
    ensures |font| >= 3 && (FoldsTo(font[0], 'C') || FoldsTo(font[0], 'M') || FoldsTo(font[0], 'E'))
  {
    var k :| 0 <= k < |MathFontPrefixes| && StartsWithFolded(font, MathFontPrefixes[k]);
    PrefixShape(k);
  }

  lemma PrefixUpper(k: nat)
    requires k < |MathFontPrefixes|
    ensures AllUpper(MathFontPrefixes[k])
  {
  }

  lemma PrefixShape(k: nat)
    requires k < |MathFontPrefixes|
    ensures |MathFontPrefixes[k]| >= 3
    ensures MathFontPrefixes[k][0] == 'C' || MathFontPrefixes[k][0] == 'M' || MathFontPrefixes[k][0] == 'E'
  {
  }

  /** Only the start of the name matters: any extension of a math font name is one too. */
  lemma MathFontExtends(font: string, suffix: string)
    requires IsMathFont(font)
    ensures IsMathFont(font + suffix)
  {
    var k :| 0 <= k < |MathFontPrefixes| && StartsWithFolded(font, MathFontPrefixes[k]);
    StartsWithFoldedExtends(font, suffix, MathFontPrefixes[k]);
    PrefixMakesMathFont(font + suffix, k);
  }

  lemma StartsWithFoldedExtends(font: string, suffix: string, p: string)
    requires StartsWithFolded(font, p)
    ensures StartsWithFolded(font + suffix, p)
  {
    assert forall i :: 0 <= i < |p| ==> (font + suffix)[i] == font[i];
  }

  /** The classifier's documented examples: the math families in any case are accepted. */
  lemma MathFontExamples()
    ensures IsMathFont("CMMI10") && IsMathFont("CMSY8") && IsMathFont("CMEX10") && IsMathFont("CMR12")
    ensures IsMathFont("CMSS10") && IsMathFont("MSBM10") && IsMathFont("EUFM10") && IsMathFont("MSAM10")
    ensures IsMathFont("cmmi7") && IsMathFont("CmSy5")
  {
    ComputerModernExamples();
    AmsExamples();
    MixedCaseExamples();
  }

  lemma ComputerModernExamples()
    ensures IsMathFont("CMMI10") && IsMathFont("CMSY8") && IsMathFont("CMEX10") && IsMathFont("CMR12")
    ensures IsMathFont("CMSS10")
  {
    PrefixMakesMathFont("CMMI10", 0);
    PrefixMakesMathFont("CMSY8", 1);
    PrefixMakesMathFont("CMEX10", 2);
    TextFamilyExamples();
  }

  lemma TextFamilyExamples()
    ensures IsMathFont("CMR12") && IsMathFont("CMSS10")
  {
    PrefixMakesMathFont("CMR12", 3);
    PrefixMakesMathFont("CMSS10", 4);
  }

  lemma AmsExamples()
    ensures IsMathFont("MSBM10") && IsMathFont("EUFM10") && IsMathFont("MSAM10")
  {
    PrefixMakesMathFont("MSBM10", 5);
    PrefixMakesMathFont("EUFM10", 6);
    PrefixMakesMathFont("MSAM10", 7);
  }

  lemma MixedCaseExamples()
    ensures IsMathFont("cmmi7") && IsMathFont("CmSy5")
  {
    PrefixMakesMathFont("cmmi7", 0);
    PrefixMakesMathFont("CmSy5", 1);
  }

  /** The body-text families of LaTeX documents are rejected. */
  lemma BodyFontExamples()
    ensures !IsMathFont("SFRM1000") && !IsMathFont("SFTI1000") && !IsMathFont("SFBX1200")
  {
    NotMathFontByStart("SFRM1000");
    NotMathFontByStart("SFTI1000");
    NotMathFontByStart("SFBX1200");
  }

  /** Generic font names, and the empty name of a span without a font, are rejected. */
  lemma GenericFontExamples()
    ensures !IsMathFont("Arial") && !IsMathFont("TimesNewRoman") && !IsMathFont("Helvetica")
    ensures !IsMathFont("")
  {
    NotMathFontByStart("Arial");
    NotMathFontByStart("");
    LongGenericFontNames();
  }

  lemma LongGenericFontNames()
    ensures !IsMathFont("TimesNewRoman") && !IsMathFont("Helvetica")
  {
    TimesNotMath();
    NotMathFontByStart("Helvetica");
  }

  lemma TimesNotMath()
    ensures !IsMathFont("TimesNewRoman")
  {
    NotMathFontByStart("TimesNewRoman");
  }

  lemma NotMathFontByStart(f: string)
    requires |f| < 3 || !(FoldsTo(f[0], 'C') || FoldsTo(f[0], 'M') || FoldsTo(f[0], 'E'))
    ensures !IsMathFont(f)
  {
    if IsMathFont(f) {
      MathFontStart(f);
    }
  }
}
