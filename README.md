# Alhames\String\Str in Dafny

A model of the string toolkit `Alhames\String\Str` (`src/Str.php`), with proofs about it. The class is a set of
stateless static transformations over read-only constant tables:

- `filter` sanitises text against code-point whitelists, driven by an option bitmask;
- `filterPunctuation` normalises typographic punctuation to ASCII;
- `filterTitle` cleans up a title;
- `slugify` turns text into a URL slug, transliterating Russian Cyrillic;
- `convertCase` splits an identifier or phrase into words and rejoins them in camel, snake or kebab case;
- `intToRoman` writes a Roman numeral;
- `getShortClassName` drops the namespace of a class name;
- `pad` is `str_pad` counted in characters rather than bytes.

Text is a Dafny `string`, a sequence of Unicode scalar values. The `/u` regular expressions of `filter`,
`filterPunctuation` and `filterTitle` work on code points. The patterns of `slugify` (lines 153 and 158) and of
`convertCase` have no `/u` and work on bytes. They only ever keep ASCII characters, and every byte of a multi-byte
character falls into the same rejected class as the whole character, so working on characters gives the same result. `pad` is the one operation that counts bytes, so it is
modelled on UTF-8 bytes.

The pipelines (`filter`, `slugify`, `convertCase`) reassign one string through whole-string rewrite passes. They are
modelled as compositions of recursive functions, one per pass:

- `ReplaceRuns` is a `[...]+` replacement;
- `Squeeze` is `x{2,}` → `x`;
- `SpaceBetween` and `SplitAcronyms` are the four `'$1 $2'` boundary patterns, each leftmost and non-overlapping;
- `TrimWith` is `trim`.

`intToRoman` is a loop that appends to a string and decrements a counter. It is the method `Roman.IntToRoman`, with
a `while` loop proved against the greedy specification `Roman.Greedy`.

Modules: `Php` holds the PHP string primitives and their lemmas, and `Numerals` holds `sprintf`'s digit strings. The
other modules follow the operations: `TextFilter`, `Slug`, `CaseConvention` (with `CaseExamples`), `Roman`,
`ClassName` and `Padding`.

`caseProvider` (tests/StrTest.php:197-240) converts each of a row's six formatted forms to every preset and expects
one result. For arbitrary input this holds only when the first convention joins words with a separator and does not
combine upper case with lcfirst. The same limit applies to converting a converted string again to its own convention:

- `CaseConvention.ConvertCaseThroughSeparated` proves that converting through such a convention equals converting
  directly, for all four snake and kebab presets among others; `CaseConvention.ConvertCaseIdempotent` follows from it.
- `CaseExamples.CamelLosesWords` and `CaseExamples.CamelNotIdempotent` exhibit camel-case inputs where it fails.
- `CaseExamples.UpperLcfirstSplitsWords` exhibits the upper-case-with-lcfirst input where it fails.

## Model

| member | source | states |
|---|---|---|
| TextFilter.Filter | src/Str.php:81-128 | The pipeline of `filter`: the CODE early return, then the PUNCTUATION, SPACE, TEXT-or-HTML and SPACE-finishing stages in the code's order. `FilterOutput`, `FilterClean`, `FilterFixesClean` and `FilterIdempotent` state what it guarantees. |
| TextFilter.FilterCodeEscapes | src/Str.php:91-99 | With FILTER_CODE, every other option bit is ignored. The filter works code point by code point. A whitelisted code point (U+0020-U+007E, U+0400-U+045F) is kept and any other becomes `[%` + at least four hex digits that read back as its code + `]`. |
| TextFilter.CodeEscapeSafe | src/Str.php:20 | The escape `[%XXXX]` consists only of whitelisted characters, so escaping never produces something that would be escaped again. |
| TextFilter.FilterTextKeeps | src/Str.php:109-110 | With FILTER_TEXT and without CODE or SPACE, the result is the subsequence of the (punctuation-normalised) input that lies in the text whitelist (tab, newline, U+0020-U+007E, U+00A0, U+0400-U+045F). |
| TextFilter.FilterTextPerCodepoint | src/Str.php:109-110 | In plain FILTER_TEXT mode, filtering distributes over concatenation. A single code point is kept when whitelisted and dropped otherwise. |
| TextFilter.FilterHtmlPerCodepoint | src/Str.php:111-119 | In plain FILTER_HTML mode, filtering distributes over concatenation. Controls U+0000-U+0008, U+000B-U+001F and U+202E are deleted, whitelisted code points are kept, and every other code point becomes `&#<decimal>;`. |
| TextFilter.NumericReferenceChars | src/Str.php:113-119 | A numeric reference consists only of `&`, `#`, `;` and decimal digits. |
| TextFilter.FilterTextOverridesHtml | src/Str.php:109-120 | When both TEXT and HTML are set, the HTML bit has no effect. |
| TextFilter.FilterPunctuationFirst | src/Str.php:101-103 | With FILTER_PUNCTUATION (and no CODE), filtering equals normalising punctuation first and then filtering without that bit. |
| TextFilter.FilterOutput | src/Str.php:81-128 | What each mode guarantees about every character of the result. CODE gives only code-whitelisted characters. TEXT gives only text-whitelisted characters. HTML gives only HTML-whitelisted characters and no deleted control. PUNCTUATION gives no typographic dash, quote or numero sign. |
| TextFilter.FilterSpaceShape | src/Str.php:105-125 | With FILTER_SPACE, the result contains none of the folded whitespace (U+0009-U+000D, U+0085, U+2000-U+200A, U+2028, U+2029). It has no two adjacent spaces and no `trim` character at either end. |
| TextFilter.FilterClean | src/Str.php:81-128 | Every result of `filter` satisfies the cleanliness predicate of its options: the whitelist, the punctuation and the whitespace shape. |
| TextFilter.FilterFixesClean | src/Str.php:81-128 | A string that is already clean for the options is returned unchanged. |
| TextFilter.FilterIdempotent | src/Str.php:81-128 | Filtering twice with the same options equals filtering once, for every option value. |
| TextFilter.ExampleText | tests/StrTest.php:22 | `filter("Hi! ©")` is `"Hi! "`. |
| TextFilter.ExampleHtml | tests/StrTest.php:24 | `filter("Hi! ©", FILTER_HTML)` is `"Hi! &#169;"`. |
| TextFilter.ExampleCode | tests/StrTest.php:25 | `filter("Hi! ©", FILTER_CODE)` is `"Hi! [%00A9]"`. |
| TextFilter.ExampleTextSpace | tests/StrTest.php:26 | `filter("Hi! ©", FILTER_TEXT \| FILTER_SPACE)` is `"Hi!"`. |
| TextFilter.FilterPunctuation | src/Str.php:130-138 | The length is preserved, and each code point maps independently to its normalised form: dashes to `-`, the quote set to `'`, the double-quote and guillemet set to `"`, U+2116 to `#`, anything else unchanged. |
| TextFilter.FilterPunctuationIdempotent | src/Str.php:130-138 | The result contains no character of the four sets, and normalising it again changes nothing. |
| TextFilter.FilterPunctuationNone | src/Str.php:130-138 | A string without those characters is returned unchanged. |
| TextFilter.FilterTitle | src/Str.php:143-147 | `filterTitle` after entity decoding: punctuation, then runs outside the title whitelist to one space, then squeezed spaces and `trim`. `FilterTitleShape` states its result. |
| TextFilter.FilterTitleShape | src/Str.php:140-148 | Given the entity-decoded title, the result lies in the title whitelist and has no typographic punctuation. It also has no two adjacent spaces and no `trim` character at either end, and cleaning it again changes nothing. |
| Numerals.Hex4 | src/Str.php:20 | `%'04X`: at least four upper-case hex digits, whose value is the number. |
| Numerals.Decimal | src/Str.php:287 | PHP's decimal form of an integer: a `-` exactly for negative numbers, followed by decimal digits that read back as the absolute value. |
| Slug.MbLower | src/Str.php:155 | `mb_strtolower` on the characters whose lower-case form a slug can keep. `MbLowerSettles` states its result. |
| Slug.MbLowerSettles | src/Str.php:155 | After lower-casing, no character that has a lower-case form a slug could keep is left. |
| Slug.Transliterate | src/Str.php:22-57 | `strtr` with the transliteration table, one character at a time. `TransliterationTable` and `LatinSettled` state its result. |
| Slug.TransliterationTable | src/Str.php:22-57 | Every entry of the transliteration table maps to lower-case ASCII letters (possibly none). |
| Slug.LatinSettled | src/Str.php:155-156 | After lower-casing and transliteration, no capital and no transliterated character is left. |
| Slug.EffectivePlaceholder | src/Str.php:152 | A placeholder other than `""` and `"0"` is used as given; those two fall back to `_`. |
| Slug.Slugify | src/Str.php:150-161 | The pipeline of `slugify`: placeholder default, lower-casing, transliteration, runs outside the class to the placeholder, repeated placeholders squeezed, placeholders trimmed. `SlugifyShape`, `SlugifyFixesSlugs` and `SlugifyIdempotent` state its result. |
| Slug.SlugifyShape | src/Str.php:150-161 | Every character of a slug is `a-z`, `0-9`, an extra character or the placeholder. The placeholder never starts or ends it and never appears twice in a row. With a lower-case-settled placeholder, no capital appears either. |
| Slug.SlugifyFixesSlugs | src/Str.php:150-161 | An input that already has the slug shape and has no capital or transliterated character is returned unchanged, for example `snake_case`. |
| Slug.SlugifyIdempotent | src/Str.php:150-161 | Slugifying a slug again changes nothing, for a placeholder that lower-casing and transliteration leave alone. |
| Slug.ExampleCyrillic | tests/StrTest.php:56 | `slugify("абв")` is `"abv"`. |
| Slug.SlugifySpacedLetters | src/Str.php:152-158 | Two lower-case letters around a space become the letters around the placeholder, for any literal placeholder other than those letters. |
| Slug.SlugifyUpperMiddle | src/Str.php:155-158 | A capital between two lower-case letters is lower-cased and kept, whatever the placeholder. |
| Slug.UpperPlaceholderNotIdempotent | src/Str.php:152-158 | With the capital placeholder `X`, `slugify("a b")` is `"aXb"`, and slugifying that again gives `"axb"`, because the placeholder is lower-cased. |
| CaseConvention.SplitWords | src/Str.php:219-225 | The four boundary patterns of `preg_replace` with an array, applied one after another. `SplitWordsShape` states its result. |
| CaseConvention.Tokenize | src/Str.php:219-227 | The boundary patterns, then runs of non-alphanumerics to one space, then `trim`. `TokenizeShape`, `TokenizeFixes` and the three cut lemmas below state its result. |
| CaseConvention.Recombine | src/Str.php:229-251 | Casing, `ucwords`, joining with the separator and `lcfirst`, as the convention bits say. `RecombineContent`, `RecombineSeparated` and `RecombineWords` state its result. |
| CaseConvention.ConvertCase | src/Str.php:217-252 | `convertCase`: tokenize, then recombine. `ConvertCaseContent`, `ConvertCaseThroughSeparated` and `ConvertCaseIdempotent` state its result. |
| CaseConvention.SpaceBetweenSplits | src/Str.php:219-225 | One `'#([a])([b])#' → '$1 $2'` pass over disjoint classes leaves no `a` character directly before a `b` character. |
| CaseConvention.SplitAcronymsContent | src/Str.php:221 | The acronym pattern only inserts spaces: for any class without the space (the letters and digits, or everything but the space), the characters of that class are unchanged and in order. |
| CaseConvention.SplitAcronymsSplits | src/Str.php:221 | After the acronym pattern, no two capitals are followed by a lower-case letter: every such boundary is split before its last capital. |
| CaseConvention.SplitWordsShape | src/Str.php:219-225 | After the four boundary patterns, no lower-case letter precedes a capital, no letter touches a digit, and no two capitals precede a lower-case letter. Everything but the inserted spaces is unchanged and in order. |
| CaseConvention.TokenizeShape | src/Str.php:219-227 | The word text consists of letters, digits and single spaces. It has no space at either end and no lower-to-upper, acronym-to-word or letter-digit boundary inside a word. It holds exactly the input's letters and digits in order. |
| CaseConvention.TokenizeSeparatorRun | src/Str.php:226-227 | A run of non-alphanumeric characters between a letter or digit and a letter or digit becomes exactly one space, and either side is split on its own. |
| CaseConvention.TokenizeAtBoundary | src/Str.php:220-225 | A capital after a lower-case letter, a digit after a letter and a letter after a digit each open a new word: the word text of the whole is the two sides' word texts with one space between them. |
| CaseConvention.TokenizeJoins | src/Str.php:219-227 | Between two lower-case letters or two digits no boundary is invented: the word text of the whole is the two sides' word texts put together. |
| CaseConvention.TokenizeFixes | src/Str.php:219-227 | Word text with no acronym boundary left (no two capitals before a lower-case letter) is split into itself. |
| CaseConvention.UcWordsFrom | src/Str.php:236 | `ucwords`: each character is upper-cased exactly when it opens a word, that is, at the start or after a delimiter. The length is preserved. |
| CaseConvention.RecombineContent | src/Str.php:229-250 | Casing, `ucwords`, joining and `lcfirst` keep the letters and digits of the words in order, up to case. |
| CaseConvention.ConvertCaseContent | src/Str.php:217-252 | Conversion keeps the letters and digits of the input in order, up to case. |
| CaseConvention.ConvertCaseLetters | src/Str.php:229-250 | Upper without lcfirst gives no lower-case letter. Neither upper nor ucwords gives no capital. Lcfirst makes the first character not a capital. Every character is a letter, a digit or the convention's separator. |
| CaseConvention.RecombineSeparated | src/Str.php:239-245 | With a separator, each space between words becomes `_` (or `-` with the dash bit) and every other character keeps its position. |
| CaseConvention.RecombineJoined | src/Str.php:239-249 | Without a separator (the camel conventions) the result is the cased words with every space deleted, and with its first character lower-cased when lcfirst is set. |
| CaseConvention.RecombineWords | src/Str.php:229-245 | With a separator, reading the separators of the result back as spaces gives the words again, up to case. |
| CaseConvention.RecombineCaseBlind | src/Str.php:229-233 | Joining depends on the words only up to case. |
| CaseConvention.TokenizeSeparated | src/Str.php:219-227 | Splitting a separated result, one with no case or letter-digit boundary inside a word and single separators, turns each separator into a space and changes nothing else. |
| CaseConvention.ConvertCaseThroughSeparated | src/Str.php:217-252 | Converting a result of a separated convention (without upper combined with lcfirst) to any convention gives what converting the original gives, as the dataset of tests/StrTest.php:231-240 expects. |
| CaseConvention.ConvertCaseIdempotent | src/Str.php:217-252 | For a convention with a separator that does not combine upper case with lcfirst (all four snake and kebab presets), converting a converted string again to the same convention changes nothing. |
| CaseExamples.SnakeICar | tests/StrTest.php:211 | `convertCase("ICar", CASE_SNAKE_LOWER)` is `"i_car"`: the acronym rule leaves the last capital of a run to the word it opens. |
| CaseExamples.TokenizeAcronymWord | src/Str.php:221 | For any two capitals followed by two lower-case letters, the word text puts a space after the first capital only. |
| CaseExamples.CamelLosesWords | src/Str.php:235-245 | Going through `CASE_CAMEL_UPPER` loses word boundaries: "a b" → "AB" → `"ab"` in snake case, where converting directly gives `"a_b"`. |
| CaseExamples.CamelNotIdempotent | src/Str.php:235-245 | `CASE_CAMEL_UPPER` is not idempotent: "a b" → "AB" → "Ab". |
| CaseExamples.UpperLcfirstSplitsWords | src/Str.php:229-249 | Under upper with lcfirst and a separator (0x1A), "ab" becomes "aB", which splits into two words: `"a_b"` in snake case against `"ab"` directly. |
| Roman.IntToRoman | src/Str.php:280-298 | 0 gives `"N"`. A number below 0 or above 4999 gives its decimal string. Otherwise the loop produces the greedy concatenation over the descending table. |
| Roman.Greedy | src/Str.php:290-297 | The greedy walk over a numeral table that the loop is proved against. `GreedyValue` and `GreedyLetters` state its result. |
| Roman.Turn | src/Str.php:292-294 | One turn of the `foreach` appends floor(n / value) copies of the numeral and leaves n mod value. |
| Roman.GreedyAppend | src/Str.php:291-295 | One turn of the loop preserves "written so far + greedy walk of the rest = greedy walk of the whole". |
| Roman.TableReadable | src/Str.php:65-79 | `$romanNumerals` has positive keys ending in 1. Each numeral is a non-empty string of Roman letters whose subtractive reading is its key. No numeral starts with a letter worth more than the last letter of an earlier numeral. |
| Roman.GreedyValue | src/Str.php:290-297 | For any table with those properties, reading the greedy numeral back gives the number. The reading subtracts a smaller letter that precedes a larger one. |
| Roman.GreedyLetters | src/Str.php:290-297 | For any such table, the greedy numeral uses only the letters `MDCLXVI`. |
| Roman.IntToRomanReadsBack | src/Str.php:280-298 | For 1..4999 the numeral consists of `MDCLXVI` and reads back as the number. |
| ClassName.LastBackslashTail | src/Str.php:267 | `strrchr(s, '\\')` is `false` exactly when there is no backslash. Otherwise it is the suffix that starts at the last backslash, and no backslash follows in it. |
| ClassName.GetShortClassName | src/Str.php:267 | The string branch as written: `substr(strrchr($class, '\\'), 1)`, with `substr(false, 1)` being `""`. `GetShortClassNameSplits` states its result. |
| ClassName.GetShortClassNameSplits | src/Str.php:267 | For a namespaced name, the result contains no backslash, and the name is the namespace, then a backslash, then the result. |
| ClassName.GetShortClassNameGlobal | src/Str.php:267 | For a name without a backslash, the code as written returns the empty string. |
| ClassName.GetShortClassNameOfStr | src/Str.php:261-268 | For `Str` the code returns `""`, while the documented short name is `"Str"`. |
| ClassName.ShortClassName | src/Str.php:254-268 | The documented "class name without namespace": no backslash in it. It agrees with the code for namespaced names and is the whole name otherwise. |
| ClassName.ShortClassNameSuffix | src/Str.php:254-268 | The short name is a suffix of the name, preceded by a backslash unless it is the whole name. |
| ClassName.ShortClassNameOfNamespaced | tests/StrTest.php:249 | `getShortClassName("Alhames\\String\\Str")` is `"Str"`. |
| Padding.Utf8Char | src/Str.php:209 | One character is one to four UTF-8 bytes, exactly one for ASCII, where the byte is the code. |
| Padding.Utf8EncodeAppend | src/Str.php:209 | UTF-8 encoding distributes over concatenation. |
| Padding.StrPad | src/Str.php:211 | `str_pad` raises a ValueError (`None`) exactly when padding is needed and the pad string is empty or the type is not LEFT, RIGHT or BOTH. |
| Padding.StrPadShape | src/Str.php:211 | A successful `str_pad` is as long as the larger of the input and the requested length. The input sits after the left padding: all of it for LEFT, none for RIGHT, half rounded down for BOTH. Each side's padding repeats the pad string from its start. |
| Padding.Pad | src/Str.php:207-212 | `pad` on UTF-8 bytes: the length is widened by the bytes beyond one per character, then `str_pad`. `PadCountsCharacters` and `PadLength` state its result. |
| Padding.PadCountsCharacters | src/Str.php:207-212 | For an ASCII pad string, `pad` on the UTF-8 bytes is the UTF-8 encoding of `str_pad` counted in characters, so the length is in characters. |
| Padding.CycleEncodes | src/Str.php:211 | For an ASCII pad string, repeating it and then encoding equals encoding it and then repeating it. |
| Padding.PadLength | src/Str.php:207-212 | For a non-empty ASCII pad string and a valid type, `pad` succeeds and its result has max(length, character count) characters. |
| Padding.PadRight | tests/StrTest.php:180 | `pad("абв", 6)` returns the UTF-8 bytes of `"абв   "`, although the input is already six bytes long. |
| Padding.PadLeft | tests/StrTest.php:181 | `pad("абв", 6, " ", STR_PAD_LEFT)` returns the UTF-8 bytes of `"   абв"`. |
| Padding.PadBoth | tests/StrTest.php:182 | `pad("абв", 6, " ", STR_PAD_BOTH)` returns the UTF-8 bytes of `" абв  "`. |
| Padding.PadDigits | tests/StrTest.php:184 | `pad(1, 5, 0, STR_PAD_LEFT)` returns the bytes of `"00001"`. |
| Padding.PadShorter | tests/StrTest.php:185 | `pad("абвгд", 3)` returns the UTF-8 bytes of `"абвгд"` unchanged. |

## Left out

- `getRandomString` and `generateToken` (src/Str.php:163-190) are left out: they depend on `random_int`, `random_bytes` and base64.
- `isUrl` and `isEmail` (src/Str.php:192-205) are left out: their behaviour lives in PCRE patterns with `/i`, so a model would only restate them.
- `interpolate` (src/Str.php:270-278) is left out: it rests on `strtr`'s longest-key-first replacement with arbitrary values cast to strings.
- The object branch of `getShortClassName` (`get_class`) is left out: it is runtime reflection.
- TextFilter.FilterTitle: `html_entity_decode` consults PHP's entity table. The model takes the decoded title as its argument and covers lines 143-147.
- Malformed UTF-8 is not modelled: `preg_*` with `/u` returns `null` on it, and a Dafny `string` is always well formed.
- Slug.MbLower covers only the lower-case mappings that can survive into a slug: A-Z, U+0400-U+042F, the Kelvin sign and U+0130. Every other character is rejected by the slug pattern whatever its lower-case form is.
- Slug.Slugify: the placeholder must be `""`, `"0"` or one printable ASCII character that is not special in the pattern (`\^$.[]|()?*+{}#`). The code splices it unquoted into a regular expression and a `trim` list, so anything longer is not a fixed character class.
- Slug.Slugify: extra characters are restricted to ASCII, since the pattern has no `/u` and would otherwise split them into bytes.
- Slug.SlugifyIdempotent is stated for placeholders that lower-casing leaves alone; Slug.UpperPlaceholderNotIdempotent shows why.
- The test-table examples with longer Cyrillic phrases and longer `convertCase` rows are not proved as concrete lemmas. Their shape follows from SlugifyShape, TokenizeShape, the cut lemmas TokenizeSeparatorRun, TokenizeAtBoundary and TokenizeJoins, and ConvertCaseLetters.
- CaseConvention.SplitAcronymsSplits: the acronym boundary (`HTTPServer` to `HTTP Server`) is stated as a property of the result, that no two capitals precede a lower-case letter, and not as a lemma that cuts the input in two.
- Roman.IntToRoman: the source's `floor($number / $intNumeral)` is floating point. For 0..4999 and the table's keys it equals integer division, which the model uses.
- Padding.Pad works on bytes. A non-ASCII pad string can be cut inside a character, as in PHP, but it is not related to a character-level result.
- Default parameter values are not modelled; every argument is explicit (a `null` extra-character list is `""`).
- Unknown option and convention bits are not rejected, as in the code: they are ignored.

## Findings

| source | as written | input that shows it | evidently intended | confidence | as-written member | corrected member |
|---|---|---|---|---|---|---|
| src/Str.php:267 | `substr(strrchr($class, '\\'), 1)` returns `""` when the name has no namespace, since `strrchr` gives `false` | `getShortClassName('Str')` for a class in the global namespace gives `""` | the class name without namespace, which for a global class is the whole name (`"Str"`) | not executed; medium | ClassName.GetShortClassNameOfStr | ClassName.ShortClassName |
