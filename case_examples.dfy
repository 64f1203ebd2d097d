/** Rows of the `convertCase` test table, and the inputs on which converting
    an already converted string does not give the direct conversion.  Each
    example goes through a lemma about inputs of its shape (two letters, a
    capital pair before a word, ...), stated for any characters of the right
    classes. */
module CaseExamples {
  import opened Php
  import opened CaseConvention

  /** `UPPER | LCFIRST | SEPARATED`. */
  const UPPER_LCFIRST_SNAKE: int := 0x1A

  // ---------------------------------------------------------------------------
  // Word texts of short inputs
  // ---------------------------------------------------------------------------

  /** Two letters with no case boundary between them are one word. */
  lemma TokenizeTwoLetters(x: char, y: char)
    requires IsLetter(x) && IsLetter(y) && !(IsLower(x) && IsUpper(y))
    ensures Tokenize([x, y]) == [x, y]
  {
    TokenizeFixes([x, y]);
  }

  /** Two letters with a space between them are two words. */
  lemma TokenizeSpacedLetters(x: char, y: char)
    requires IsLetter(x) && IsLetter(y)
    ensures Tokenize([x, ' ', y]) == [x, ' ', y]
  {
    TokenizeFixes([x, ' ', y]);
  }

  /** A lower-case letter before a capital: the hump opens a second word. */
  lemma TokenizeHump(x: char, y: char)
    requires IsLower(x) && IsUpper(y)
    ensures Tokenize([x, y]) == [x, ' ', y]
  {
    var t := [x, ' ', y];
    assert SpaceBetween([x, y], IsLower, IsUpper) == t by {
      assert [x, y][2..] == [];
    }
    SpaceBetweenNone(t, IsLower, IsUpper);
    TokenizeSpacedLetters(x, y);
  }

  /** Two capitals before a lower-case letter: the acronym rule leaves the
      second capital to the word it opens. */
  lemma AcronymWordSplits(x: char, y: char, z: char, w: char)
    requires IsUpper(x) && IsUpper(y) && IsLower(z) && IsLower(w)
    ensures SplitAcronyms([x, y, z, w]) == [x, ' ', y, z, w]
  {
    var s := [x, y, z, w];
    assert s[1..] == [y, z, w] && [y, z, w][1..] == [z, w];
    assert RunLength([z, w], IsUpper) == 0;
    assert RunLength([y, z, w], IsUpper) == 1;
    assert RunLength(s, IsUpper) == 2;
    assert s[..1] == [x] && s[1..3] == [y, z];
    assert [x] + [' '] + [y, z] == [x, ' ', y, z];
    assert AcronymPiece(s) == ([x, ' ', y, z], 3);
    SplitAcronymsStep(s);
    assert s[3..] == [w];
    assert RunLength([w], IsUpper) == 0;
    SplitAcronymsStep([w]);
    assert [w][1..] == [];
  }

  /** The split text of a capital pair before a word, taken apart by the
      conditions of `Tokenized`. */
  lemma InitialAndWordChars(x: char, y: char, z: char, w: char)
    requires IsUpper(x) && IsUpper(y) && IsLower(z) && IsLower(w)
    ensures All([x, ' ', y, z, w], IsTokenChar) && NotAtEnds([x, ' ', y, z, w], Is(' '))
  {
  }

  lemma InitialAndWordSpaces(x: char, y: char, z: char, w: char)
    requires IsUpper(x) && IsUpper(y) && IsLower(z) && IsLower(w)
    ensures NoAdjacent([x, ' ', y, z, w], Is(' '), Is(' '))
  {
  }

  lemma InitialAndWordCases(x: char, y: char, z: char, w: char)
    requires IsUpper(x) && IsUpper(y) && IsLower(z) && IsLower(w)
    ensures NoAdjacent([x, ' ', y, z, w], IsLower, IsUpper)
    ensures NoAdjacent([x, ' ', y, z, w], IsLetter, IsDigit)
    ensures NoAdjacent([x, ' ', y, z, w], IsDigit, IsLetter)
  {
  }

  /** The split text of a capital pair before a lower-case pair. */
  lemma SplitAcronymWord(x: char, y: char, z: char, w: char)
    requires IsUpper(x) && IsUpper(y) && IsLower(z) && IsLower(w)
    ensures SplitWords([x, y, z, w]) == [x, ' ', y, z, w]
  {
    var s, t := [x, y, z, w], [x, ' ', y, z, w];
    InitialAndWordCases(x, y, z, w);
    assert NoAdjacent(s, IsLower, IsUpper);
    SpaceBetweenNone(s, IsLower, IsUpper);
    AcronymWordSplits(x, y, z, w);
    SpaceBetweenNone(t, IsLetter, IsDigit);
    SpaceBetweenNone(t, IsDigit, IsLetter);
  }

  lemma InitialAndWordTokenized(x: char, y: char, z: char, w: char)
    requires IsUpper(x) && IsUpper(y) && IsLower(z) && IsLower(w)
    ensures Tokenized([x, ' ', y, z, w])
  {
    InitialAndWordChars(x, y, z, w);
    InitialAndWordSpaces(x, y, z, w);
    InitialAndWordCases(x, y, z, w);
  }

  lemma TokenizeAcronymWord(x: char, y: char, z: char, w: char)
    requires IsUpper(x) && IsUpper(y) && IsLower(z) && IsLower(w)
    ensures Tokenize([x, y, z, w]) == [x, ' ', y, z, w]
  {
    InitialAndWordTokenized(x, y, z, w);
    SplitAcronymWord(x, y, z, w);
    TokenizeOfSplit([x, y, z, w], [x, ' ', y, z, w]);
  }

  // ---------------------------------------------------------------------------
  // Joining short word texts
  // ---------------------------------------------------------------------------

  /** In snake case every space becomes '_' and everything else is lower-cased. */
  lemma SnakeJoin(t: string)
    ensures |Recombine(t, CASE_SNAKE_LOWER)| == |t|
    ensures forall i :: 0 <= i < |t| ==>
      Recombine(t, CASE_SNAKE_LOWER)[i] == if t[i] == ' ' then '_' else ToLower(t[i])
  {
    assert HasBit(CASE_SNAKE_LOWER, SEPARATED) && !HasBit(CASE_SNAKE_LOWER, DASH);
    assert !HasBit(CASE_SNAKE_LOWER, UPPER) && !HasBit(CASE_SNAKE_LOWER, UCWORDS) && !HasBit(CASE_SNAKE_LOWER, LCFIRST);
    assert Separator(CASE_SNAKE_LOWER) == "_";
    RecombineSeparated(t, CASE_SNAKE_LOWER);
  }

  lemma SnakeOfTwo(x: char, y: char)
    requires IsLetter(x) && IsLetter(y)
    ensures Recombine([x, y], CASE_SNAKE_LOWER) == [ToLower(x), ToLower(y)]
  {
    SnakeJoin([x, y]);
  }

  lemma SnakeOfSpaced(x: char, y: char)
    requires IsLetter(x) && IsLetter(y)
    ensures Recombine([x, ' ', y], CASE_SNAKE_LOWER) == [ToLower(x), '_', ToLower(y)]
  {
    SnakeJoin([x, ' ', y]);
  }

  lemma SnakeOfInitialAndWord(x: char, y: char, z: char, w: char)
    requires IsLetter(x) && IsLetter(y) && IsLetter(z) && IsLetter(w)
    ensures Recombine([x, ' ', y, z, w], CASE_SNAKE_LOWER) == [ToLower(x), '_', ToLower(y), ToLower(z), ToLower(w)]
  {
    SnakeJoin([x, ' ', y, z, w]);
  }

  /** Deleting the spaces of two characters, with or without one between them. */
  lemma DropSpace(a: char, b: char)
    requires a != ' ' && b != ' '
    ensures ReplaceChar([a, ' ', b], ' ', "") == [a, b]
    ensures ReplaceChar([a, b], ' ', "") == [a, b]
  {
    assert [b][1..] == [];
    assert ReplaceChar([b], ' ', "") == [b];
    assert [' ', b][1..] == [b];
    assert ReplaceChar([' ', b], ' ', "") == [b];
    assert [a, ' ', b][1..] == [' ', b];
    assert [a, b][1..] == [b];
  }

  /** In upper camel case the words are capitalised and the spaces dropped. */
  lemma CamelOfSpaced(x: char, y: char)
    requires IsLetter(x) && IsLetter(y)
    ensures Recombine([x, ' ', y], CASE_CAMEL_UPPER) == [ToUpper(x), ToUpper(y)]
  {
    assert HasBit(CASE_CAMEL_UPPER, UCWORDS) && !HasBit(CASE_CAMEL_UPPER, SEPARATED);
    assert !HasBit(CASE_CAMEL_UPPER, UPPER) && !HasBit(CASE_CAMEL_UPPER, LCFIRST);
    CaseFolds(x);
    CaseFolds(y);
    assert Separator(CASE_CAMEL_UPPER) == "";
    assert Worded([x, ' ', y], CASE_CAMEL_UPPER) == [ToUpper(x), ' ', ToUpper(y)];
    DropSpace(ToUpper(x), ToUpper(y));
  }

  lemma CamelOfTwo(x: char, y: char)
    requires IsLetter(x) && IsLetter(y)
    ensures Recombine([x, y], CASE_CAMEL_UPPER) == [ToUpper(x), ToLower(y)]
  {
    assert HasBit(CASE_CAMEL_UPPER, UCWORDS) && !HasBit(CASE_CAMEL_UPPER, SEPARATED);
    assert !HasBit(CASE_CAMEL_UPPER, UPPER) && !HasBit(CASE_CAMEL_UPPER, LCFIRST);
    CaseFolds(x);
    CaseFolds(y);
    assert Separator(CASE_CAMEL_UPPER) == "";
    assert Worded([x, y], CASE_CAMEL_UPPER) == [ToUpper(x), ToLower(y)];
    DropSpace(ToUpper(x), ToLower(y));
  }

  /** With `UPPER | LCFIRST` the first letter ends up lower-case and the rest
      upper-case. */
  lemma UpperLcfirstOfTwo(x: char, y: char)
    requires IsLetter(x) && IsLetter(y)
    ensures Recombine([x, y], UPPER_LCFIRST_SNAKE) == [ToLower(x), ToUpper(y)]
  {
    assert HasBit(UPPER_LCFIRST_SNAKE, UPPER) && HasBit(UPPER_LCFIRST_SNAKE, LCFIRST) && HasBit(UPPER_LCFIRST_SNAKE, SEPARATED);
    assert !HasBit(UPPER_LCFIRST_SNAKE, UCWORDS) && !HasBit(UPPER_LCFIRST_SNAKE, DASH);
    CaseFolds(x);
    RecombineSeparated([x, y], UPPER_LCFIRST_SNAKE);
  }

  // ---------------------------------------------------------------------------
  // "ICar" in snake case is "i_car"
  // ---------------------------------------------------------------------------

  lemma SnakeICar()
    ensures ConvertCase("ICar", CASE_SNAKE_LOWER) == "i_car"
  {
    TokenizeAcronymWord('I', 'C', 'a', 'r');
    SnakeOfInitialAndWord('I', 'C', 'a', 'r');
  }

  // ---------------------------------------------------------------------------
  // Camel case forgets where one-letter words end
  // ---------------------------------------------------------------------------

  lemma SnakeOfWordsAB()
    ensures ConvertCase("a b", CASE_SNAKE_LOWER) == "a_b"
  {
    TokenizeSpacedLetters('a', 'b');
    SnakeOfSpaced('a', 'b');
  }

  lemma CamelOfWordsAB()
    ensures ConvertCase("a b", CASE_CAMEL_UPPER) == "AB"
  {
    TokenizeSpacedLetters('a', 'b');
    CamelOfSpaced('a', 'b');
  }

  lemma SnakeOfAB()
    ensures ConvertCase("AB", CASE_SNAKE_LOWER) == "ab"
  {
    TokenizeTwoLetters('A', 'B');
    SnakeOfTwo('A', 'B');
  }

  lemma CamelOfAB()
    ensures ConvertCase("AB", CASE_CAMEL_UPPER) == "Ab"
  {
    TokenizeTwoLetters('A', 'B');
    CamelOfTwo('A', 'B');
  }

  /** Converting to `CASE_CAMEL_UPPER` twice is not converting once: "a b"
      becomes "AB", which reads as one acronym and becomes "Ab". */
  lemma CamelNotIdempotent()
    ensures ConvertCase("a b", CASE_CAMEL_UPPER) == "AB"
    ensures ConvertCase(ConvertCase("a b", CASE_CAMEL_UPPER), CASE_CAMEL_UPPER) == "Ab"
  {
    CamelOfWordsAB();
    CamelOfAB();
  }

  /** Going through `CASE_CAMEL_UPPER` turns the two words of "a b" into one. */
  lemma CamelLosesWords()
    ensures ConvertCase(ConvertCase("a b", CASE_CAMEL_UPPER), CASE_SNAKE_LOWER) == "ab"
    ensures ConvertCase("a b", CASE_SNAKE_LOWER) == "a_b"
  {
    CamelOfWordsAB();
    SnakeOfAB();
    SnakeOfWordsAB();
  }

  // ---------------------------------------------------------------------------
  // With UPPER and LCFIRST together a lower-case letter lands in front of a
  // capital and opens a new word
  // ---------------------------------------------------------------------------

  lemma UpperLcfirstOfAB()
    ensures ConvertCase("ab", UPPER_LCFIRST_SNAKE) == "aB"
  {
    TokenizeTwoLetters('a', 'b');
    UpperLcfirstOfTwo('a', 'b');
  }

  lemma SnakeOfHump()
    ensures ConvertCase("aB", CASE_SNAKE_LOWER) == "a_b"
  {
    TokenizeHump('a', 'B');
    SnakeOfSpaced('a', 'B');
  }

  lemma SnakeOfWord()
    ensures ConvertCase("ab", CASE_SNAKE_LOWER) == "ab"
  {
    TokenizeTwoLetters('a', 'b');
    SnakeOfTwo('a', 'b');
  }

  /** So `ConvertCaseThroughSeparated` needs its exclusion of `UPPER | LCFIRST`. */
  lemma UpperLcfirstSplitsWords()
    ensures ConvertCase(ConvertCase("ab", UPPER_LCFIRST_SNAKE), CASE_SNAKE_LOWER) == "a_b"
    ensures ConvertCase("ab", CASE_SNAKE_LOWER) == "ab"
  {
    UpperLcfirstOfAB();
    SnakeOfHump();
    SnakeOfWord();
  }
}
