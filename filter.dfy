/** `Str::filter`, `Str::filterPunctuation` and the part of `Str::filterTitle`
    after entity decoding: whitelist sanitising of text, codepoint by codepoint. */
module TextFilter {
  import opened Php
  import opened Numerals

  // Option bits of `Str::filter`.
  const FILTER_TEXT: nat := 1
  const FILTER_HTML: nat := 2
  const FILTER_CODE: nat := 4
  const FILTER_PUNCTUATION: nat := 8
  const FILTER_SPACE: nat := 16

  // ---------------------------------------------------------------------------
  // The character classes of the patterns
  // ---------------------------------------------------------------------------

  /** Kept by the code escape: basic Latin U+0020..U+007E and Cyrillic U+0400..U+045F. */
  predicate InCodeWhitelist(c: char) { 0x20 <= c as int <= 0x7E || 0x400 <= c as int <= 0x45F }
  predicate OutsideCodeWhitelist(c: char) { !InCodeWhitelist(c) }

  /** Folded into one space: U+0009..U+000D, U+0085, U+2000..U+200A, U+2028, U+2029. */
  predicate IsFoldableSpace(c: char)
  {
    0x9 <= c as int <= 0xD || c as int == 0x85 || 0x2000 <= c as int <= 0x200A || c as int == 0x2028 || c as int == 0x2029
  }
  predicate NotFoldableSpace(c: char) { !IsFoldableSpace(c) }

  /** Kept in text mode: tab, newline, basic Latin, no-break space, Cyrillic. */
  predicate InTextWhitelist(c: char)
  {
    c == '\n' || c == '\t' || 0x20 <= c as int <= 0x7E || c as int == 0xA0 || 0x400 <= c as int <= 0x45F
  }
  predicate OutsideTextWhitelist(c: char) { !InTextWhitelist(c) }

  /** Deleted in HTML mode: controls other than tab and newline, and the
      right-to-left override U+202E. */
  predicate IsHtmlControl(c: char) { c as int <= 0x08 || 0x0B <= c as int <= 0x1F || c as int == 0x202E }

  /** Left as they are in HTML mode: tab, newline, basic Latin, Cyrillic. */
  predicate InHtmlWhitelist(c: char) { c == '\n' || c == '\t' || 0x20 <= c as int <= 0x7E || 0x400 <= c as int <= 0x45F }
  predicate OutsideHtmlWhitelist(c: char) { !InHtmlWhitelist(c) }

  /** The hex escape `[%XXXX]` of one codepoint (format "[%%%'04X]"). */
  function CodeEscape(c: char): string { "[%" + Hex4(c as int) + "]" }

  /** The decimal numeric character reference `&#N;` of one codepoint. */
  function NumericReference(c: char): string { "&#" + Decimal(c as int) + ";" }

  // ---------------------------------------------------------------------------
  // filterPunctuation
  // ---------------------------------------------------------------------------

  /** Dashes U+2010..U+2015 and U+2053. */
  predicate IsDash(c: char) { 0x2010 <= c as int <= 0x2015 || c as int == 0x2053 }

  /** Single quotes: backtick, acute accent, U+02B9, U+02BB..U+02BF, U+2018..U+201B. */
  predicate IsQuote(c: char)
  {
    c as int == 0x60 || c as int == 0xB4 || c as int == 0x2B9 || 0x2BB <= c as int <= 0x2BF || 0x2018 <= c as int <= 0x201B
  }

  /** Double quotes and guillemets: U+00AB, U+00BB, U+02BA, U+201C..U+201F, U+2039, U+203A. */
  predicate IsDoubleQuote(c: char)
  {
    c as int == 0xAB || c as int == 0xBB || c as int == 0x2BA || 0x201C <= c as int <= 0x201F
    || c as int == 0x2039 || c as int == 0x203A
  }

  /** The numero sign U+2116. */
  predicate IsNumeroSign(c: char) { c as int == 0x2116 }

  /** A character none of the four substitutions touches. */
  predicate IsPlainPunctuation(c: char) { !IsDash(c) && !IsQuote(c) && !IsDoubleQuote(c) && !IsNumeroSign(c) }

  /** What one codepoint stands for after punctuation normalisation. */
  function NormalizedPunctuation(c: char): char
  {
    if IsDash(c) then '-'
    else if IsQuote(c) then '\''
    else if IsDoubleQuote(c) then '"'
    else if IsNumeroSign(c) then '#'
    else c
  }

  /** The four substitution passes, in the source's order.  Their targets lie
      outside every later set, so together they normalise each codepoint on its
      own and keep the length. */
  function FilterPunctuation(s: string): (r: string)
    ensures |r| == |s|
    ensures forall i :: 0 <= i < |s| ==> r[i] == NormalizedPunctuation(s[i])
  {
    ReplaceEach(ReplaceEach(ReplaceEach(ReplaceEach(s, IsDash, '-'), IsQuote, '\''), IsDoubleQuote, '"'), IsNumeroSign, '#')
  }

  /** The normalised form of a codepoint is left alone by normalisation. */
  lemma NormalizedIsPlain(c: char)
    ensures IsPlainPunctuation(NormalizedPunctuation(c))
  {
  }

  lemma FilterPunctuationIdempotent(s: string)
    ensures All(FilterPunctuation(s), IsPlainPunctuation)
    ensures FilterPunctuation(FilterPunctuation(s)) == FilterPunctuation(s)
  {
    var r := FilterPunctuation(s);
    forall i | 0 <= i < |r| ensures IsPlainPunctuation(r[i]) {
      NormalizedIsPlain(s[i]);
    }
    FilterPunctuationNone(r);
  }

  lemma FilterPunctuationNone(s: string)
    requires All(s, IsPlainPunctuation)
    ensures FilterPunctuation(s) == s
  {
    assert forall i :: 0 <= i < |s| ==> FilterPunctuation(s)[i] == s[i];
  }

  // ---------------------------------------------------------------------------
  // filter
  // ---------------------------------------------------------------------------

  /** Optional punctuation normalisation. */
  function Punctuated(s: string, options: int): string
  {
    if HasBit(options, FILTER_PUNCTUATION) then FilterPunctuation(s) else s
  }

  /** Optional whitespace folding: every run of foldable space becomes one ASCII space. */
  function Folded(s: string, options: int): string
  {
    if HasBit(options, FILTER_SPACE) then ReplaceRuns(s, IsFoldableSpace, " ") else s
  }

  /** The mode body: text mode wins over HTML mode; with neither nothing happens. */
  function ModeBody(s: string, options: int): string
  {
    if HasBit(options, FILTER_TEXT) then ReplaceRuns(s, OutsideTextWhitelist, [])
    else if HasBit(options, FILTER_HTML) then ExpandEach(ReplaceRuns(s, IsHtmlControl, []), OutsideHtmlWhitelist, NumericReference)
    else s
  }

  /** Optional space collapsing and trimming. */
  function Finished(s: string, options: int): string
  {
    if HasBit(options, FILTER_SPACE) then Trim(Squeeze(s, ' ')) else s
  }

  /** `Str::filter($string, $options)`. */
  function Filter(s: string, options: int): string
  {
    if HasBit(options, FILTER_CODE) then ExpandEach(s, OutsideCodeWhitelist, CodeEscape)
    else Finished(ModeBody(Folded(Punctuated(s, options), options), options), options)
  }

  // ---------------------------------------------------------------------------
  // Code escape mode
  // ---------------------------------------------------------------------------

  /** With the code bit every other bit is ignored, the text is escaped one
      codepoint at a time, each escape holding at least four upper-case hex
      digits that denote the codepoint. */
  lemma FilterCodeEscapes(a: string, b: string, c: char, options: int)
    requires HasBit(options, FILTER_CODE)
    ensures Filter(a, options) == Filter(a, FILTER_CODE)
    ensures Filter(a + b, options) == Filter(a, options) + Filter(b, options)
    ensures Filter([c], options) == if InCodeWhitelist(c) then [c] else CodeEscape(c)
    ensures OutsideCodeWhitelist(c) ==> |Hex4(c as int)| >= 4 && FromDigits(Hex4(c as int), 16) == c as int
  {
    assert HasBit(FILTER_CODE, FILTER_CODE);
    FilterCode(a, options);
    FilterCode(a, FILTER_CODE);
    FilterCode(b, options);
    FilterCode(a + b, options);
    FilterCode([c], options);
    ExpandEachAppend(a, b, OutsideCodeWhitelist, CodeEscape);
    ExpandEachSingle(c, OutsideCodeWhitelist, CodeEscape);
  }

  /** With the code bit set, `filter` is the code escape alone. */
  lemma FilterCode(s: string, options: int)
    requires HasBit(options, FILTER_CODE)
    ensures Filter(s, options) == ExpandEach(s, OutsideCodeWhitelist, CodeEscape)
  {
  }

  lemma CodeEscapeSafe(c: char)
    ensures All(CodeEscape(c), InCodeWhitelist)
  {
    var h := Hex4(c as int);
    HexDigitsKept(h);
    AllAppend("[%", h, InCodeWhitelist);
    AllAppend("[%" + h, "]", InCodeWhitelist);
  }

  /** Hexadecimal digits are ASCII, so the code escape keeps them. */
  lemma HexDigitsKept(h: string)
    requires forall i :: 0 <= i < |h| ==> IsDigitOf(h[i], 16)
    ensures All(h, InCodeWhitelist)
  {
    forall i | 0 <= i < |h| ensures InCodeWhitelist(h[i]) {
      assert IsDigitOf(h[i], 16);
    }
  }

  // ---------------------------------------------------------------------------
  // Text and HTML modes
  // ---------------------------------------------------------------------------

  /** Text mode without space folding keeps exactly the whitelisted codepoints
      of the (optionally normalised) input, in order. */
  lemma FilterTextKeeps(s: string, options: int)
    requires !HasBit(options, FILTER_CODE) && HasBit(options, FILTER_TEXT) && !HasBit(options, FILTER_SPACE)
    ensures Filter(s, options) == Keep(Punctuated(s, options), InTextWhitelist)
  {
    ReplaceRunsDelete(Punctuated(s, options), OutsideTextWhitelist, InTextWhitelist);
  }

  /** Plain text mode deletes codepoint by codepoint. */
  lemma FilterTextPerCodepoint(a: string, b: string, c: char, options: int)
    requires !HasBit(options, FILTER_CODE) && HasBit(options, FILTER_TEXT)
    requires !HasBit(options, FILTER_SPACE) && !HasBit(options, FILTER_PUNCTUATION)
    ensures Filter(a + b, options) == Filter(a, options) + Filter(b, options)
    ensures Filter([c], options) == if InTextWhitelist(c) then [c] else []
  {
    FilterTextKeeps(a + b, options);
    FilterTextKeeps(a, options);
    FilterTextKeeps(b, options);
    FilterTextKeeps([c], options);
    KeepAppend(a, b, InTextWhitelist);
    assert [c][1..] == [];
  }

  lemma Parity(y: int, k: int)
    ensures (y + 2 * k) % 2 == y % 2
  {
  }

  /** Removing the HTML bit from a mask that has it leaves the other bits. */
  lemma ClearHtmlBit(x: int)
    requires HasBit(x, FILTER_HTML)
    ensures !HasBit(x - FILTER_HTML, FILTER_HTML)
    ensures HasBit(x - FILTER_HTML, FILTER_TEXT) == HasBit(x, FILTER_TEXT)
    ensures HasBit(x - FILTER_HTML, FILTER_CODE) == HasBit(x, FILTER_CODE)
    ensures HasBit(x - FILTER_HTML, FILTER_PUNCTUATION) == HasBit(x, FILTER_PUNCTUATION)
    ensures HasBit(x - FILTER_HTML, FILTER_SPACE) == HasBit(x, FILTER_SPACE)
  {
    var a := x / 4;
    assert x == 4 * a + 2 + x % 2;
    assert x - 2 == 4 * a + x % 2;
    assert (x - 2) / 4 == a;
    assert x / 8 == a / 2 && (x - 2) / 8 == a / 2;
    assert x / 16 == a / 4 && (x - 2) / 16 == a / 4;
  }

  /** Removing the punctuation bit from a mask that has it leaves the other bits. */
  lemma ClearPunctuationBit(x: int)
    requires HasBit(x, FILTER_PUNCTUATION)
    ensures !HasBit(x - FILTER_PUNCTUATION, FILTER_PUNCTUATION)
    ensures HasBit(x - FILTER_PUNCTUATION, FILTER_TEXT) == HasBit(x, FILTER_TEXT)
    ensures HasBit(x - FILTER_PUNCTUATION, FILTER_HTML) == HasBit(x, FILTER_HTML)
    ensures HasBit(x - FILTER_PUNCTUATION, FILTER_CODE) == HasBit(x, FILTER_CODE)
    ensures HasBit(x - FILTER_PUNCTUATION, FILTER_SPACE) == HasBit(x, FILTER_SPACE)
  {
    var c, b := x / 8, x % 8;
    assert x == 8 * c + b && 0 <= b < 8;
    assert x - 8 == 8 * (c - 1) + b;
    assert (x - 8) / 8 == c - 1;
    assert x / 16 == c / 2 && (x - 8) / 16 == (c - 1) / 2;
    assert x / 4 == 2 * c + b / 4 && (x - 8) / 4 == 2 * (c - 1) + b / 4;
    assert x / 2 == 4 * c + b / 2 && (x - 8) / 2 == 4 * (c - 1) + b / 2;
    Parity(b / 4, c);
    Parity(b / 4, c - 1);
    Parity(b / 2, 2 * c);
    Parity(b / 2, 2 * (c - 1));
  }

  /** Text mode takes precedence: the HTML bit is ignored when the text bit is set. */
  lemma FilterTextOverridesHtml(s: string, options: int)
    requires HasBit(options, FILTER_TEXT) && HasBit(options, FILTER_HTML)
    ensures Filter(s, options) == Filter(s, options - FILTER_HTML)
  {
    ClearHtmlBit(options);
  }

  /** Punctuation normalisation is a first pass in front of the rest. */
  lemma FilterPunctuationFirst(s: string, options: int)
    requires !HasBit(options, FILTER_CODE) && HasBit(options, FILTER_PUNCTUATION)
    ensures Filter(s, options) == Filter(FilterPunctuation(s), options - FILTER_PUNCTUATION)
  {
    ClearPunctuationBit(options);
    FilterPunctuationIdempotent(s);
  }

  /** HTML mode without folding: controls and U+202E vanish, whitelisted
      codepoints stay, every other codepoint becomes its decimal reference. */
  lemma FilterHtmlPerCodepoint(a: string, b: string, c: char, options: int)
    requires !HasBit(options, FILTER_CODE) && !HasBit(options, FILTER_TEXT) && HasBit(options, FILTER_HTML)
    requires !HasBit(options, FILTER_SPACE) && !HasBit(options, FILTER_PUNCTUATION)
    ensures Filter(a + b, options) == Filter(a, options) + Filter(b, options)
    ensures Filter([c], options) == if IsHtmlControl(c) then [] else if InHtmlWhitelist(c) then [c] else NumericReference(c)
  {
    ReplaceRunsDelete(a + b, IsHtmlControl, NotHtmlControl);
    ReplaceRunsDelete(a, IsHtmlControl, NotHtmlControl);
    ReplaceRunsDelete(b, IsHtmlControl, NotHtmlControl);
    ReplaceRunsDelete([c], IsHtmlControl, NotHtmlControl);
    KeepAppend(a, b, NotHtmlControl);
    ExpandEachAppend(Keep(a, NotHtmlControl), Keep(b, NotHtmlControl), OutsideHtmlWhitelist, NumericReference);
    assert [c][1..] == [];
    ExpandEachSingle(c, OutsideHtmlWhitelist, NumericReference);
  }

  predicate NotHtmlControl(c: char) { !IsHtmlControl(c) }

  /** Every character of a numeric reference is `&`, `#`, `;` or a decimal digit. */
  lemma NumericReferenceChars(c: char)
    ensures forall i :: 0 <= i < |NumericReference(c)| ==> IsReferenceChar(NumericReference(c)[i])
  {
    var d := Decimal(c as int);
    assert forall i :: 0 <= i < |d| ==> IsDigitOf(d[i], 10);
    var e := NumericReference(c);
    forall i | 0 <= i < |e| ensures IsReferenceChar(e[i]) {
      if 2 <= i < 2 + |d| {
        assert e[i] == d[i - 2];
      }
    }
  }

  predicate IsReferenceChar(c: char) { c == '&' || c == '#' || c == ';' || '0' <= c <= '9' }

  // ---------------------------------------------------------------------------
  // What the output looks like, and idempotence
  // ---------------------------------------------------------------------------

  /** The classes an output of `Filter` with these options stays inside. */
  predicate Clean(s: string, options: int)
  {
    if HasBit(options, FILTER_CODE) then All(s, InCodeWhitelist)
    else
      && (HasBit(options, FILTER_PUNCTUATION) ==> All(s, IsPlainPunctuation))
      && (HasBit(options, FILTER_SPACE) ==>
            All(s, NotFoldableSpace) && NoAdjacent(s, Is(' '), Is(' ')) && NotAtEnds(s, IsTrimChar))
      && (HasBit(options, FILTER_TEXT) ==> All(s, InTextWhitelist))
      && (!HasBit(options, FILTER_TEXT) && HasBit(options, FILTER_HTML) ==> All(s, InHtmlWhitelist))
  }

  /** The classes a stage keeps: those that hold of the one space it may add
      and of every character of a numeric reference. */
  predicate Kept(q: char -> bool)
  {
    q(' ') && forall c: char :: IsReferenceChar(c) ==> q(c)
  }

  lemma KeptClasses()
    ensures Kept(IsPlainPunctuation) && Kept(NotFoldableSpace) && Kept(InTextWhitelist) && Kept(InHtmlWhitelist)
  {
  }

  /** Each of the non-code stages keeps every class in `Kept`. */
  lemma StagesKeep(s: string, options: int, q: char -> bool)
    requires Kept(q)
    ensures All(s, q) ==> All(Folded(s, options), q)
    ensures All(s, q) ==> All(ModeBody(s, options), q)
    ensures All(s, q) ==> All(Finished(s, options), q)
  {
    if All(s, q) {
      FoldedKeeps(s, options, q);
      ModeBodyKeeps(s, options, q);
      FinishedKeeps(s, options, q);
    }
  }

  lemma FoldedKeeps(s: string, options: int, q: char -> bool)
    requires Kept(q) && All(s, q)
    ensures All(Folded(s, options), q)
  {
    if HasBit(options, FILTER_SPACE) {
      assert q(' ');
      ReplaceRunsAll(s, IsFoldableSpace, " ", q);
    }
  }

  lemma ModeBodyKeeps(s: string, options: int, q: char -> bool)
    requires Kept(q) && All(s, q)
    ensures All(ModeBody(s, options), q)
  {
    if HasBit(options, FILTER_TEXT) {
      ReplaceRunsAll(s, OutsideTextWhitelist, [], q);
    } else if HasBit(options, FILTER_HTML) {
      var kept := ReplaceRuns(s, IsHtmlControl, []);
      ReplaceRunsAll(s, IsHtmlControl, [], q);
      forall i | 0 <= i < |kept| && OutsideHtmlWhitelist(kept[i])
        ensures All(NumericReference(kept[i]), q)
      {
        NumericReferenceChars(kept[i]);
      }
      ExpandEachAll(kept, OutsideHtmlWhitelist, NumericReference, q);
    }
  }

  lemma FinishedKeeps(s: string, options: int, q: char -> bool)
    requires Kept(q) && All(s, q)
    ensures All(Finished(s, options), q)
  {
    if HasBit(options, FILTER_SPACE) {
      var squeezed := Squeeze(s, ' ');
      assert q(' ');
      ReplaceRunsAll(s, Is(' '), [' '], q);
      TrimKeeps(squeezed, IsTrimChar, q, Is(' '), Is(' '));
    }
  }

  /** Every output of `Filter` is `Clean`. */
  lemma FilterClean(s: string, options: int)
    ensures Clean(Filter(s, options), options)
  {
    if HasBit(options, FILTER_CODE) {
      forall i | 0 <= i < |s| && OutsideCodeWhitelist(s[i]) ensures All(CodeEscape(s[i]), InCodeWhitelist) {
        CodeEscapeSafe(s[i]);
      }
      ExpandEachAll(s, OutsideCodeWhitelist, CodeEscape, InCodeWhitelist);
    } else {
      KeptClasses();
      var p := Punctuated(s, options);
      var f := Folded(p, options);
      var m := ModeBody(f, options);
      var r := Finished(m, options);
      if HasBit(options, FILTER_PUNCTUATION) {
        FilterPunctuationIdempotent(s);
        StagesKeep(p, options, IsPlainPunctuation);
        StagesKeep(f, options, IsPlainPunctuation);
        StagesKeep(m, options, IsPlainPunctuation);
      }
      if HasBit(options, FILTER_SPACE) {
        ReplaceRunsAll(p, IsFoldableSpace, " ", NotFoldableSpace);
        StagesKeep(f, options, NotFoldableSpace);
        StagesKeep(m, options, NotFoldableSpace);
        ReplaceRunsNoDouble(m, Is(' '), ' ');
        TrimKeeps(Squeeze(m, ' '), IsTrimChar, NotFoldableSpace, Is(' '), Is(' '));
      }
      if HasBit(options, FILTER_TEXT) {
        ReplaceRunsAll(f, OutsideTextWhitelist, [], InTextWhitelist);
        StagesKeep(m, options, InTextWhitelist);
      } else if HasBit(options, FILTER_HTML) {
        var kept := ReplaceRuns(f, IsHtmlControl, []);
        forall i | 0 <= i < |kept| && OutsideHtmlWhitelist(kept[i])
          ensures All(NumericReference(kept[i]), InHtmlWhitelist)
        {
          NumericReferenceChars(kept[i]);
        }
        ExpandEachAll(kept, OutsideHtmlWhitelist, NumericReference, InHtmlWhitelist);
        StagesKeep(m, options, InHtmlWhitelist);
      }
    }
  }

  /** `Filter` changes nothing in a `Clean` text. */
  lemma FilterFixesClean(s: string, options: int)
    requires Clean(s, options)
    ensures Filter(s, options) == s
  {
    if HasBit(options, FILTER_CODE) {
      ExpandEachNone(s, OutsideCodeWhitelist, CodeEscape);
    } else {
      if HasBit(options, FILTER_PUNCTUATION) {
        FilterPunctuationNone(s);
      }
      if HasBit(options, FILTER_SPACE) {
        ReplaceRunsNone(s, IsFoldableSpace, " ");
        SqueezeNone(s, ' ');
        TrimNone(s, IsTrimChar);
      }
      if HasBit(options, FILTER_TEXT) {
        ReplaceRunsNone(s, OutsideTextWhitelist, []);
      } else if HasBit(options, FILTER_HTML) {
        ReplaceRunsNone(s, IsHtmlControl, []);
        ExpandEachNone(s, OutsideHtmlWhitelist, NumericReference);
      }
    }
  }

  /** Filtering twice with the same options is filtering once, for every option mask. */
  lemma FilterIdempotent(s: string, options: int)
    ensures Filter(Filter(s, options), options) == Filter(s, options)
  {
    FilterClean(s, options);
    FilterFixesClean(Filter(s, options), options);
  }

  /** What each mode guarantees about its output. */
  lemma FilterOutput(s: string, options: int)
    ensures HasBit(options, FILTER_CODE) ==> All(Filter(s, options), InCodeWhitelist)
    ensures !HasBit(options, FILTER_CODE) && HasBit(options, FILTER_TEXT) ==> All(Filter(s, options), InTextWhitelist)
    ensures !HasBit(options, FILTER_CODE) && !HasBit(options, FILTER_TEXT) && HasBit(options, FILTER_HTML) ==>
      All(Filter(s, options), InHtmlWhitelist) && All(Filter(s, options), NotHtmlControl)
    ensures !HasBit(options, FILTER_CODE) && HasBit(options, FILTER_PUNCTUATION) ==> All(Filter(s, options), IsPlainPunctuation)
  {
    FilterClean(s, options);
  }

  /** With space folding the output has no foldable whitespace at all, no two
      adjacent spaces and nothing `trim` would strip at either end. */
  lemma FilterSpaceShape(s: string, options: int)
    requires !HasBit(options, FILTER_CODE) && HasBit(options, FILTER_SPACE)
    ensures All(Filter(s, options), NotFoldableSpace)
    ensures NoAdjacent(Filter(s, options), Is(' '), Is(' '))
    ensures NotAtEnds(Filter(s, options), IsTrimChar)
  {
    FilterClean(s, options);
  }

  // ---------------------------------------------------------------------------
  // filterTitle, from the decoded title on
  // ---------------------------------------------------------------------------

  /** Kept in titles: `=`, U+0020..U+003B, U+003F..U+007E, U+00A0, Cyrillic
      (so `<` and `>` and everything else outside go). */
  predicate InTitleWhitelist(c: char)
  {
    c == '=' || 0x20 <= c as int <= 0x3B || 0x3F <= c as int <= 0x7E || c as int == 0xA0 || 0x400 <= c as int <= 0x45F
  }
  predicate OutsideTitleWhitelist(c: char) { !InTitleWhitelist(c) }

  /** `Str::filterTitle` applied to the already entity-decoded title. */
  function FilterTitle(decoded: string): string
  {
    Trim(Squeeze(ReplaceRuns(FilterPunctuation(decoded), OutsideTitleWhitelist, " "), ' '))
  }

  /** A filtered title is whitelisted, normalised, single-spaced and trimmed;
      filtering it again changes nothing. */
  lemma FilterTitleShape(decoded: string)
    ensures All(FilterTitle(decoded), InTitleWhitelist)
    ensures All(FilterTitle(decoded), IsPlainPunctuation)
    ensures NoAdjacent(FilterTitle(decoded), Is(' '), Is(' '))
    ensures NotAtEnds(FilterTitle(decoded), IsTrimChar)
    ensures FilterTitle(FilterTitle(decoded)) == FilterTitle(decoded)
  {
    var p := FilterPunctuation(decoded);
    FilterPunctuationIdempotent(decoded);
    var w := ReplaceRuns(p, OutsideTitleWhitelist, " ");
    ReplaceRunsAll(p, OutsideTitleWhitelist, " ", InTitleWhitelist);
    ReplaceRunsAll(p, OutsideTitleWhitelist, " ", IsPlainPunctuation);
    var q := Squeeze(w, ' ');
    ReplaceRunsAll(w, Is(' '), " ", InTitleWhitelist);
    ReplaceRunsAll(w, Is(' '), " ", IsPlainPunctuation);
    ReplaceRunsNoDouble(w, Is(' '), ' ');
    TrimKeeps(q, IsTrimChar, InTitleWhitelist, Is(' '), Is(' '));
    TrimKeeps(q, IsTrimChar, IsPlainPunctuation, Is(' '), Is(' '));
    var r := FilterTitle(decoded);
    FilterPunctuationNone(r);
    ReplaceRunsNone(r, OutsideTitleWhitelist, " ");
    SqueezeNone(r, ' ');
    TrimNone(r, IsTrimChar);
  }

  // ---------------------------------------------------------------------------
  // Rows of the test suite
  // ---------------------------------------------------------------------------

  lemma CopyrightNumbers()
    ensures Decimal(0xA9) == "169"
    ensures Hex4(0xA9) == "00A9"
  {
    assert ToDigits(169, 10) == "169";
    assert ToDigits(169, 16) == "A9";
  }

  lemma CopyrightEscapes()
    ensures NumericReference('©') == "&#169;"
    ensures CodeEscape('©') == "[%00A9]"
  {
    CopyrightNumbers();
  }

  lemma HtmlKeepsGreeting()
    ensures ExpandEach("Hi! ", OutsideHtmlWhitelist, NumericReference) == "Hi! "
  {
    ExpandEachNone("Hi! ", OutsideHtmlWhitelist, NumericReference);
  }

  lemma HtmlEscapesCopyright()
    ensures ExpandEach(['©'], OutsideHtmlWhitelist, NumericReference) == "&#169;"
  {
    ExpandEachSingle('©', OutsideHtmlWhitelist, NumericReference);
    CopyrightEscapes();
  }

  /** Without control characters HTML mode only encodes what it does not keep. */
  lemma HtmlOnlyEncodes(s: string, options: int)
    requires !HasBit(options, FILTER_CODE) && !HasBit(options, FILTER_TEXT) && HasBit(options, FILTER_HTML)
    requires !HasBit(options, FILTER_SPACE) && !HasBit(options, FILTER_PUNCTUATION)
    requires forall i :: 0 <= i < |s| ==> !IsHtmlControl(s[i])
    ensures Filter(s, options) == ExpandEach(s, OutsideHtmlWhitelist, NumericReference)
  {
    ReplaceRunsNone(s, IsHtmlControl, []);
  }

  lemma HtmlBits()
    ensures !HasBit(FILTER_HTML, FILTER_CODE) && !HasBit(FILTER_HTML, FILTER_TEXT) && HasBit(FILTER_HTML, FILTER_HTML)
    ensures !HasBit(FILTER_HTML, FILTER_SPACE) && !HasBit(FILTER_HTML, FILTER_PUNCTUATION)
  {
  }

  lemma ExampleHtml()
    ensures Filter("Hi! ©", FILTER_HTML) == "Hi! &#169;"
  {
    var s := "Hi! ©";
    HtmlBits();
    HtmlOnlyEncodes(s, FILTER_HTML);
    HtmlEncodesGreeting();
  }

  lemma HtmlEncodesGreeting()
    ensures ExpandEach("Hi! ©", OutsideHtmlWhitelist, NumericReference) == "Hi! &#169;"
  {
    assert "Hi! ©" == "Hi! " + ['©'];
    ExpandEachAppend("Hi! ", ['©'], OutsideHtmlWhitelist, NumericReference);
    HtmlKeepsGreeting();
    HtmlEscapesCopyright();
    assert "Hi! " + "&#169;" == "Hi! &#169;";
  }

  lemma CodeKeepsGreeting()
    ensures ExpandEach("Hi! ", OutsideCodeWhitelist, CodeEscape) == "Hi! "
  {
    ExpandEachNone("Hi! ", OutsideCodeWhitelist, CodeEscape);
  }

  lemma CodeEscapesCopyright()
    ensures ExpandEach(['©'], OutsideCodeWhitelist, CodeEscape) == "[%00A9]"
  {
    ExpandEachSingle('©', OutsideCodeWhitelist, CodeEscape);
    CopyrightEscapes();
  }

  lemma ExampleCode()
    ensures Filter("Hi! ©", FILTER_CODE) == "Hi! [%00A9]"
  {
    assert HasBit(FILTER_CODE, FILTER_CODE);
    FilterCode("Hi! ©", FILTER_CODE);
    CodeEncodesGreeting();
  }

  lemma CodeEncodesGreeting()
    ensures ExpandEach("Hi! ©", OutsideCodeWhitelist, CodeEscape) == "Hi! [%00A9]"
  {
    assert "Hi! ©" == "Hi! " + ['©'];
    ExpandEachAppend("Hi! ", ['©'], OutsideCodeWhitelist, CodeEscape);
    CodeKeepsGreeting();
    CodeEscapesCopyright();
    assert "Hi! " + "[%00A9]" == "Hi! [%00A9]";
  }

  lemma TextKeepsGreeting()
    ensures ReplaceRuns("Hi! ", OutsideTextWhitelist, []) == "Hi! "
  {
    ReplaceRunsNone("Hi! ", OutsideTextWhitelist, []);
  }

  lemma TextDropsSign()
    ensures ReplaceRuns(['©'], OutsideTextWhitelist, []) == []
  {
    ReplaceRunsSingle('©', OutsideTextWhitelist, []);
  }

  lemma TextSplitsGreeting()
    ensures ReplaceRuns("Hi! ©", OutsideTextWhitelist, [])
         == ReplaceRuns("Hi! ", OutsideTextWhitelist, []) + ReplaceRuns(['©'], OutsideTextWhitelist, [])
  {
    assert "Hi! ©" == "Hi! " + ['©'];
    ReplaceRunsAppend("Hi! ", ['©'], OutsideTextWhitelist, []);
  }

  lemma TextDropsCopyright()
    ensures ReplaceRuns("Hi! ©", OutsideTextWhitelist, []) == "Hi! "
  {
    TextSplitsGreeting();
    TextKeepsGreeting();
    TextDropsSign();
    assert "Hi! " + [] == "Hi! ";
  }

  lemma ExampleText()
    ensures Filter("Hi! ©", FILTER_TEXT) == "Hi! "
  {
    assert HasBit(FILTER_TEXT, FILTER_TEXT) && !HasBit(FILTER_TEXT, FILTER_CODE);
    assert !HasBit(FILTER_TEXT, FILTER_SPACE) && !HasBit(FILTER_TEXT, FILTER_PUNCTUATION);
    TextDropsCopyright();
  }

  lemma ExampleTextSpaceBody()
    ensures ModeBody(Folded("Hi! ©", FILTER_TEXT + FILTER_SPACE), FILTER_TEXT + FILTER_SPACE) == "Hi! "
  {
    assert HasBit(FILTER_TEXT + FILTER_SPACE, FILTER_TEXT) && HasBit(FILTER_TEXT + FILTER_SPACE, FILTER_SPACE);
    ReplaceRunsNone("Hi! ©", IsFoldableSpace, " ");
    TextDropsCopyright();
  }

  /** A trailing space after a word is trimmed away. */
  lemma TrimTrailingSpace(w: string)
    requires w != [] && NotAtEnds(w, IsTrimChar)
    ensures Trim(w + " ") == w
  {
    var s := w + " ";
    assert s[|s| - 1] == ' ' && s[..|s| - 1] == w;
    assert TrimStart(s, IsTrimChar) == s;
  }

  lemma ExampleTextSpace()
    ensures Filter("Hi! ©", FILTER_TEXT + FILTER_SPACE) == "Hi!"
  {
    var o := FILTER_TEXT + FILTER_SPACE;
    assert HasBit(o, FILTER_SPACE) && !HasBit(o, FILTER_CODE) && !HasBit(o, FILTER_PUNCTUATION);
    assert Punctuated("Hi! ©", o) == "Hi! ©";
    ExampleTextSpaceBody();
    SqueezeNone("Hi! ", ' ');
    assert "Hi! " == "Hi!" + " ";
    TrimTrailingSpace("Hi!");
  }
}
