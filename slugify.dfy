/** `Str::slugify`: lower-case, transliterate Russian Cyrillic to Latin, and
    replace everything outside `[a-z0-9]`, the extra characters and the
    placeholder by single placeholders. */
module Slug {
  import opened Php

  // ---------------------------------------------------------------------------
  // mb_strtolower, as far as a slug can tell
  // ---------------------------------------------------------------------------

  /** The characters whose lower-case form can end up in a slug: Latin and
      Cyrillic capitals, the Kelvin sign and the capital I with dot above.
      Every other character is rejected whatever its lower-case form is. */
  predicate HasSlugLowerForm(c: char)
  {
    IsUpper(c) || 0x400 <= c as int <= 0x42F || c as int == 0x212A || c as int == 0x130
  }
  predicate NoSlugLowerForm(c: char) { !HasSlugLowerForm(c) }

  /** The lower-case form of one of those characters. */
  function LowerForm(c: char): string
  {
    if IsUpper(c) then [ToLower(c)]
    else if 0x410 <= c as int <= 0x42F then [(c as int + 0x20) as char]
    else if 0x400 <= c as int <= 0x40F then [(c as int + 0x50) as char]
    else if c as int == 0x212A then "k"
    else if c as int == 0x130 then ['i', 0x307 as char]
    else [c]
  }

  function MbLower(s: string): string
  {
    ExpandEach(s, HasSlugLowerForm, LowerForm)
  }

  /** Lower-casing leaves nothing to lower-case. */
  lemma MbLowerSettles(s: string)
    ensures All(MbLower(s), NoSlugLowerForm)
  {
    forall i | 0 <= i < |s| && HasSlugLowerForm(s[i]) ensures All(LowerForm(s[i]), NoSlugLowerForm) {
    }
    ExpandEachAll(s, HasSlugLowerForm, LowerForm, NoSlugLowerForm);
  }

  // ---------------------------------------------------------------------------
  // The transliteration table
  // ---------------------------------------------------------------------------

  /** The keys of the transliteration table: the 32 lower-case letters
      U+0430..U+044F, `ё` and the apostrophe. */
  predicate IsTransliterated(c: char)
  {
    0x430 <= c as int <= 0x44F || c == 'ё' || c == '\''
  }

  /** The transliteration table; `strtr` replaces each key, one character, on its own. */
  function TransliterateChar(c: char): string
  {
    match c
    case 'а' => "a"   case 'б' => "b"   case 'в' => "v"   case 'г' => "g"
    case 'д' => "d"   case 'е' => "e"   case 'ё' => "yo"  case 'ж' => "zh"
    case 'з' => "z"   case 'и' => "i"   case 'й' => "j"   case 'к' => "k"
    case 'л' => "l"   case 'м' => "m"   case 'н' => "n"   case 'о' => "o"
    case 'п' => "p"   case 'р' => "r"   case 'с' => "s"   case 'т' => "t"
    case 'у' => "u"   case 'ф' => "f"   case 'х' => "h"   case 'ц' => "ts"
    case 'ч' => "ch"  case 'ш' => "sh"  case 'щ' => "sch" case 'ъ' => ""
    case 'ы' => "y"   case 'ь' => ""    case 'э' => "e"   case 'ю' => "yu"
    case 'я' => "ya"  case '\'' => ""
    case _ => [c]
  }

  function Transliterate(s: string): string
  {
    ExpandEach(s, IsTransliterated, TransliterateChar)
  }

  /** Every value of the table is a string of lower-case Latin letters. */
  lemma TransliterationTable(c: char)
    requires IsTransliterated(c)
    ensures All(TransliterateChar(c), IsLower)
  {
  }

  /** A character neither lower-casing nor transliteration changes. */
  predicate Settled(c: char) { NoSlugLowerForm(c) && !IsTransliterated(c) }

  /** After lower-casing and transliteration every character is settled. */
  lemma LatinSettled(s: string)
    ensures All(Transliterate(MbLower(s)), Settled)
  {
    var l := MbLower(s);
    MbLowerSettles(s);
    forall i | 0 <= i < |l| && IsTransliterated(l[i]) ensures All(TransliterateChar(l[i]), Settled) {
      TransliterationTable(l[i]);
    }
    ExpandEachAll(l, IsTransliterated, TransliterateChar, Settled);
  }

  // ---------------------------------------------------------------------------
  // Placeholder and character class
  // ---------------------------------------------------------------------------

  /** `$placeholder ?: '_'`: the empty string and "0" are falsy in PHP. */
  function EffectivePlaceholder(placeholder: string): (r: string)
    ensures placeholder != "" && placeholder != "0" ==> r == placeholder
    ensures placeholder == "" || placeholder == "0" ==> r == "_"
  {
    if placeholder == "" || placeholder == "0" then "_" else placeholder
  }

  /** A printable ASCII character that stands for itself in a regular
      expression delimited by `#`. */
  predicate IsRegexLiteral(c: char)
  {
    0x20 <= c as int <= 0x7E && c !in "\\^$.[]|()?*+{}#"
  }

  /** The placeholders this model covers: the defaults, or one literal character. */
  predicate ValidPlaceholder(placeholder: string)
  {
    placeholder == "" || placeholder == "0" || (|placeholder| == 1 && IsRegexLiteral(placeholder[0]))
  }

  /** What the slug keeps: `[a-z0-9]`, the extra characters, the placeholder. */
  function SlugAccepts(characters: string, ph: char): char -> bool
  {
    c => IsLower(c) || IsDigit(c) || c in characters || c == ph
  }

  function SlugRejects(characters: string, ph: char): char -> bool
  {
    c => !(IsLower(c) || IsDigit(c) || c in characters || c == ph)
  }

  /** `Str::slugify($string, $characters, $placeholder)`; a null argument is the empty string. */
  function Slugify(s: string, characters: string, placeholder: string): string
    requires ValidPlaceholder(placeholder) && All(characters, IsAscii)
  {
    var ph := EffectivePlaceholder(placeholder)[0];
    var latin := Transliterate(MbLower(s));
    TrimWith(Squeeze(ReplaceRuns(latin, SlugRejects(characters, ph), [ph]), ph), Is(ph))
  }

  // ---------------------------------------------------------------------------
  // Properties
  // ---------------------------------------------------------------------------

  /** A slug is made of accepted characters, has no placeholder at either end
      and never two placeholders in a row. */
  predicate IsSlug(s: string, characters: string, ph: char)
  {
    All(s, SlugAccepts(characters, ph)) && NotAtEnds(s, Is(ph)) && NoAdjacent(s, Is(ph), Is(ph))
  }

  lemma SlugifyShape(s: string, characters: string, placeholder: string)
    requires ValidPlaceholder(placeholder) && All(characters, IsAscii)
    ensures IsSlug(Slugify(s, characters, placeholder), characters, EffectivePlaceholder(placeholder)[0])
    ensures Settled(EffectivePlaceholder(placeholder)[0]) ==> All(Slugify(s, characters, placeholder), Settled)
  {
    var ph := EffectivePlaceholder(placeholder)[0];
    var latin := Transliterate(MbLower(s));
    var replaced := ReplaceRuns(latin, SlugRejects(characters, ph), [ph]);
    var squeezed := Squeeze(replaced, ph);
    var accepts := SlugAccepts(characters, ph);
    ReplaceRunsAll(latin, SlugRejects(characters, ph), [ph], accepts);
    ReplaceRunsAll(replaced, Is(ph), [ph], accepts);
    ReplaceRunsNoDouble(replaced, Is(ph), ph);
    TrimKeeps(squeezed, Is(ph), accepts, Is(ph), Is(ph));
    if Settled(ph) {
      LatinSettled(s);
      ReplaceRunsAll(latin, SlugRejects(characters, ph), [ph], Settled);
      ReplaceRunsAll(replaced, Is(ph), [ph], Settled);
      TrimKeeps(squeezed, Is(ph), Settled, Is(ph), Is(ph));
    }
  }

  /** A settled slug is its own slug. */
  lemma SlugifyFixesSlugs(s: string, characters: string, placeholder: string)
    requires ValidPlaceholder(placeholder) && All(characters, IsAscii)
    requires IsSlug(s, characters, EffectivePlaceholder(placeholder)[0]) && All(s, Settled)
    ensures Slugify(s, characters, placeholder) == s
  {
    var ph := EffectivePlaceholder(placeholder)[0];
    ExpandEachNone(s, HasSlugLowerForm, LowerForm);
    ExpandEachNone(s, IsTransliterated, TransliterateChar);
    ReplaceRunsNone(s, SlugRejects(characters, ph), [ph]);
    SqueezeNone(s, ph);
    TrimNone(s, Is(ph));
  }

  /** Slugifying a slug changes nothing, unless the placeholder is itself a
      character that lower-casing or transliteration rewrites. */
  lemma SlugifyIdempotent(s: string, characters: string, placeholder: string)
    requires ValidPlaceholder(placeholder) && All(characters, IsAscii)
    requires Settled(EffectivePlaceholder(placeholder)[0])
    ensures Slugify(Slugify(s, characters, placeholder), characters, placeholder) == Slugify(s, characters, placeholder)
  {
    SlugifyShape(s, characters, placeholder);
    SlugifyFixesSlugs(Slugify(s, characters, placeholder), characters, placeholder);
  }

  /** Slugify from its stages: a word with no placeholder at either end and
      none doubled comes out as it was rewritten. */
  lemma SlugifyFrom(s: string, characters: string, placeholder: string, replaced: string)
    requires ValidPlaceholder(placeholder) && All(characters, IsAscii)
    requires ReplaceRuns(Transliterate(MbLower(s)), SlugRejects(characters, EffectivePlaceholder(placeholder)[0]),
                         [EffectivePlaceholder(placeholder)[0]]) == replaced
    requires NotAtEnds(replaced, Is(EffectivePlaceholder(placeholder)[0]))
    requires NoAdjacent(replaced, Is(EffectivePlaceholder(placeholder)[0]), Is(EffectivePlaceholder(placeholder)[0]))
    ensures Slugify(s, characters, placeholder) == replaced
  {
    var ph := EffectivePlaceholder(placeholder)[0];
    SqueezeNone(replaced, ph);
    TrimNone(replaced, Is(ph));
  }

  lemma CyrillicLatin()
    ensures Transliterate(MbLower("абв")) == "abv"
  {
    ExpandEachNone("абв", HasSlugLowerForm, LowerForm);
    assert "а" + "бв" == "абв" && "б" + "в" == "бв";
    ExpandEachAppend("а", "бв", IsTransliterated, TransliterateChar);
    ExpandEachAppend("б", "в", IsTransliterated, TransliterateChar);
    ExpandEachSingle('а', IsTransliterated, TransliterateChar);
    ExpandEachSingle('б', IsTransliterated, TransliterateChar);
    ExpandEachSingle('в', IsTransliterated, TransliterateChar);
  }

  lemma ExampleCyrillic()
    ensures Slugify("абв", "", "") == "abv"
  {
    CyrillicLatin();
    ReplaceRunsNone("abv", SlugRejects("", '_'), "_");
    SlugifyFrom("абв", "", "", "abv");
  }

  /** Text already settled is left alone by lower-casing and transliteration. */
  lemma SettledUnchanged(s: string)
    requires All(s, Settled)
    ensures Transliterate(MbLower(s)) == s
  {
    ExpandEachNone(s, HasSlugLowerForm, LowerForm);
    ExpandEachNone(s, IsTransliterated, TransliterateChar);
  }

  /** The space between two kept letters becomes the placeholder. */
  lemma SpaceReplaced(x: char, y: char, ph: char)
    requires IsLower(x) && IsLower(y) && ph != ' '
    ensures ReplaceRuns([x, ' ', y], SlugRejects("", ph), [ph]) == [x, ph, y]
  {
    var p := SlugRejects("", ph);
    assert [x, ' ', y] == [x] + ([' '] + [y]);
    ReplaceRunsSingle(x, p, [ph]);
    ReplaceRunsSingle(' ', p, [ph]);
    ReplaceRunsSingle(y, p, [ph]);
    ReplaceRunsAppend([' '], [y], p, [ph]);
    ReplaceRunsAppend([x], [' '] + [y], p, [ph]);
  }

  /** Two letters with a space between them: the space becomes the placeholder. */
  lemma SlugifySpacedLetters(x: char, y: char, ph: char)
    requires IsLower(x) && IsLower(y) && IsRegexLiteral(ph) && ph != ' ' && ph != '0'
    requires x != ph && y != ph
    ensures Slugify([x, ' ', y], "", [ph]) == [x, ph, y]
  {
    assert All([x, ' ', y], Settled);
    SettledUnchanged([x, ' ', y]);
    SpaceReplaced(x, y, ph);
    SlugifyFrom([x, ' ', y], "", [ph], [x, ph, y]);
  }

  /** An ASCII letter lower-cases to its lower-case form. */
  lemma LowerLetter(c: char)
    requires IsLetter(c)
    ensures MbLower([c]) == [ToLower(c)]
  {
    ExpandEachSingle(c, HasSlugLowerForm, LowerForm);
  }

  /** A capital between two letters is lower-cased and kept. */
  lemma LowerMiddle(x: char, c: char, y: char)
    requires IsLower(x) && IsUpper(c) && IsLower(y)
    ensures Transliterate(MbLower([x, c, y])) == [x, ToLower(c), y]
  {
    assert [x, c, y] == [x] + ([c] + [y]);
    LowerLetter(x);
    LowerLetter(c);
    LowerLetter(y);
    ExpandEachAppend([c], [y], HasSlugLowerForm, LowerForm);
    ExpandEachAppend([x], [c] + [y], HasSlugLowerForm, LowerForm);
    var t := [x, ToLower(c), y];
    assert MbLower([x, c, y]) == t;
    assert forall i :: 0 <= i < |t| ==> IsLower(t[i]);
    ExpandEachNone(t, IsTransliterated, TransliterateChar);
  }

  /** Three letters, the middle one a capital: the capital is lower-cased,
      whatever the placeholder. */
  lemma SlugifyUpperMiddle(x: char, c: char, y: char, ph: char)
    requires IsLower(x) && IsUpper(c) && IsLower(y) && IsRegexLiteral(ph) && ph != '0'
    requires x != ph && y != ph
    ensures Slugify([x, c, y], "", [ph]) == [x, ToLower(c), y]
  {
    var t := [x, ToLower(c), y];
    LowerMiddle(x, c, y);
    ReplaceRunsNone(t, SlugRejects("", ph), [ph]);
    SlugifyFrom([x, c, y], "", [ph], t);
  }

  lemma SlugifySpaced()
    ensures Slugify("a b", "", "X") == "aXb"
  {
    SlugifySpacedLetters('a', 'b', 'X');
  }

  /** An upper-case placeholder is not stable: the second pass lower-cases it. */
  lemma UpperPlaceholderNotIdempotent()
    ensures Slugify(Slugify("a b", "", "X"), "", "X") == "axb"
  {
    SlugifySpacedLetters('a', 'b', 'X');
    SlugifyUpperMiddle('a', 'X', 'b', 'X');
    assert ToLower('X') == 'x';
  }
}
