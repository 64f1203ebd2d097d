/** `Str::intToRoman`: Roman numerals by the greedy walk over a descending
    table of values and their numerals, subtractive pairs included. */
module Roman {
  import opened Php
  import opened Numerals

  /** `$romanNumerals`, in the order the `foreach` visits it. */
  const RomanNumerals: seq<(nat, string)> := [
    (1000, "M"), (900, "CM"), (500, "D"), (400, "CD"),
    (100, "C"), (90, "XC"), (50, "L"), (40, "XL"),
    (10, "X"), (9, "IX"), (5, "V"), (4, "IV"),
    (1, "I")
  ]

  /** The seven numeral letters and their values; 0 for any other character. */
  function LetterValue(c: char): nat
  {
    match c
    case 'I' => 1
    case 'V' => 5
    case 'X' => 10
    case 'L' => 50
    case 'C' => 100
    case 'D' => 500
    case 'M' => 1000
    case _ => 0
  }

  predicate IsRomanLetter(c: char) { LetterValue(c) > 0 }

  /** The usual reading of a numeral: a letter counts negatively when the next
      letter is worth more, positively otherwise. */
  function RomanValue(s: string): int
  {
    if s == [] then 0
    else if |s| >= 2 && LetterValue(s[0]) < LetterValue(s[1]) then RomanValue(s[1..]) - LetterValue(s[0])
    else RomanValue(s[1..]) + LetterValue(s[0])
  }

  /** A table the walk can divide by: every value is positive. */
  predicate Positive(t: seq<(nat, string)>)
  {
    forall j :: 0 <= j < |t| ==> t[j].0 > 0
  }

  /** What the walk over table `t` appends from entry `i` on, starting with `n`
      still to write. */
  function Greedy(t: seq<(nat, string)>, n: nat, i: nat): string
    requires Positive(t) && i <= |t|
    decreases |t| - i
  {
    if i == |t| then []
    else Repeat(t[i].1, n / t[i].0) + Greedy(t, n % t[i].0, i + 1)
  }

  /** `Str::intToRoman($number)`: "N" for zero, the decimal digits outside
      1..4999, otherwise the greedy numeral.  The source divides in floating
      point and floors; on these operands that is the integer quotient. */
  method IntToRoman(number: int) returns (r: string)
    ensures number == 0 ==> r == "N"
    ensures (number < 0 || number > 4999) ==> r == Decimal(number)
    ensures 0 < number <= 4999 ==> Positive(RomanNumerals) && r == Greedy(RomanNumerals, number, 0)
  {
    if number == 0 {
      return "N";
    }
    if number > 4999 || number < 0 {
      return Decimal(number);
    }
    TablePositive();
    r := "";
    var n: nat := number;
    var i := 0;
    while i < |RomanNumerals|
      invariant 0 <= i <= |RomanNumerals|
      invariant r + Greedy(RomanNumerals, n, i) == Greedy(RomanNumerals, number, 0)
      decreases |RomanNumerals| - i
    {
      var value, numeral := RomanNumerals[i].0, RomanNumerals[i].1;
      GreedyAppend(RomanNumerals, r, n, i);
      r, n := Turn(r, n, value, numeral);
      i := i + 1;
    }
  }

  /** One turn of the `foreach`: append `floor(n / value)` copies of the
      numeral and take their worth off `n`, which leaves `n mod value`. */
  method Turn(r: string, n: nat, value: nat, numeral: string) returns (r': string, n': nat)
    requires value > 0
    ensures r' == r + Repeat(numeral, n / value)
    ensures n' == n % value
  {
    var d := n / value;
    r' := r + Repeat(numeral, d);
    n' := n - d * value;
  }

  /** One turn of the walk, as the loop takes it: the numeral is appended and
      the rest is written from the remainder. */
  lemma GreedyAppend(t: seq<(nat, string)>, r: string, n: nat, i: nat)
    requires Positive(t) && i < |t|
    ensures r + Repeat(t[i].1, n / t[i].0) + Greedy(t, n % t[i].0, i + 1) == r + Greedy(t, n, i)
  {
    var a, b := Repeat(t[i].1, n / t[i].0), Greedy(t, n % t[i].0, i + 1);
    assert Greedy(t, n, i) == a + b;
    assert r + a + b == r + (a + b);
  }

  // ---------------------------------------------------------------------------
  // Tables whose greedy numerals read back
  // ---------------------------------------------------------------------------

  function LastLetter(s: string): char
    requires s != []
  {
    s[|s| - 1]
  }

  /** An entry is a non-empty run of numeral letters that reads as its value and
      does not start with a letter worth more than its last one. */
  predicate Entry(e: (nat, string))
  {
    e.1 != [] && All(e.1, IsRomanLetter) && RomanValue(e.1) == e.0
    && LetterValue(e.1[0]) <= LetterValue(LastLetter(e.1))
  }

  /** What the walk needs of its table to write numerals that read back: positive
      values, readable entries, a last entry worth 1, and no entry that starts
      with a letter worth more than the last letter of an earlier entry. */
  predicate Readable(t: seq<(nat, string)>)
  {
    Positive(t) && t != [] && t[|t| - 1].0 == 1
    && (forall j :: 0 <= j < |t| ==> Entry(t[j]))
    && (forall i, j :: 0 <= i < j < |t| ==> LetterValue(t[j].1[0]) <= LetterValue(LastLetter(t[i].1)))
  }

  lemma TablePositive()
    ensures Positive(RomanNumerals)
  {
  }

  lemma TableEntry(j: nat)
    requires j < |RomanNumerals|
    ensures Entry(RomanNumerals[j])
  {
    TableLetters(j);
    TableValue(j);
  }

  lemma TableLetters(j: nat)
    requires j < |RomanNumerals|
    ensures RomanNumerals[j].1 != [] && All(RomanNumerals[j].1, IsRomanLetter)
    ensures LetterValue(RomanNumerals[j].1[0]) <= LetterValue(LastLetter(RomanNumerals[j].1))
  {
  }

  lemma TableValue(j: nat)
    requires j < |RomanNumerals|
    ensures RomanValue(RomanNumerals[j].1) == RomanNumerals[j].0
  {
  }

  /** Later numerals of `$romanNumerals` never start with a letter worth more
      than the last letter of an earlier one. */
  lemma TableDescends(i: nat, j: nat)
    requires i < j < |RomanNumerals|
    ensures LetterValue(RomanNumerals[j].1[0]) <= LetterValue(LastLetter(RomanNumerals[i].1))
    decreases j - i
  {
    assert LetterValue(RomanNumerals[j].1[0]) <= LetterValue(LastLetter(RomanNumerals[j - 1].1));
    if i < j - 1 {
      TableDescends(i, j - 1);
      assert LetterValue(RomanNumerals[j - 1].1[0]) <= LetterValue(LastLetter(RomanNumerals[j - 1].1));
      assert LetterValue(LastLetter(RomanNumerals[j - 1].1)) <= LetterValue(LastLetter(RomanNumerals[i].1)) by {
        LastLettersDescend(i, j - 1);
      }
    }
  }

  lemma LastLettersDescend(i: nat, j: nat)
    requires i <= j < |RomanNumerals|
    ensures LetterValue(LastLetter(RomanNumerals[j].1)) <= LetterValue(LastLetter(RomanNumerals[i].1))
    decreases j - i
  {
    if i < j {
      LastLettersDescend(i, j - 1);
    }
  }

  /** `$romanNumerals` is such a table: each numeral is made of the letters
      M, D, C, L, X, V and I and reads as its key, the keys end with 1, and a
      numeral never starts with a letter worth more than an earlier one ends with. */
  lemma TableReadable()
    ensures Readable(RomanNumerals)
  {
    TablePositive();
    forall j | 0 <= j < |RomanNumerals|
      ensures Entry(RomanNumerals[j])
    {
      TableEntry(j);
    }
    forall i, j | 0 <= i < j < |RomanNumerals|
      ensures LetterValue(RomanNumerals[j].1[0]) <= LetterValue(LastLetter(RomanNumerals[i].1))
    {
      TableDescends(i, j);
    }
  }

  // ---------------------------------------------------------------------------
  // Reading numerals back
  // ---------------------------------------------------------------------------

  /** Reading is additive across a join that does not go up in value. */
  lemma {:induction false} RomanValueAppend(a: string, b: string)
    requires a == [] || b == [] || LetterValue(LastLetter(a)) >= LetterValue(b[0])
    ensures RomanValue(a + b) == RomanValue(a) + RomanValue(b)
  {
    if a == [] {
      assert a + b == b;
    } else if |a| == 1 {
      assert (a + b)[1..] == b;
    } else {
      assert (a + b)[1..] == a[1..] + b;
      assert (a + b)[1] == a[1];
      RomanValueAppend(a[1..], b);
    }
  }

  /** `k` copies of a numeral that does not go up from its end to its start. */
  lemma {:induction false} RepeatValue(s: string, k: nat)
    requires s != [] && LetterValue(s[0]) <= LetterValue(LastLetter(s))
    ensures RomanValue(Repeat(s, k)) == k * RomanValue(s)
    ensures k > 0 ==> Repeat(s, k) != [] && Repeat(s, k)[0] == s[0]
  {
    if k > 0 {
      RepeatValue(s, k - 1);
      RomanValueAppend(s, Repeat(s, k - 1));
      assert k * RomanValue(s) == RomanValue(s) + (k - 1) * RomanValue(s);
    }
  }

  lemma {:induction false} RepeatLast(s: string, k: nat)
    requires s != [] && k > 0
    ensures Repeat(s, k) != [] && LastLetter(Repeat(s, k)) == LastLetter(s)
  {
    if k > 1 {
      RepeatLast(s, k - 1);
    } else {
      assert Repeat(s, 1) == s + [];
    }
  }

  /** The walk from entry `i` on starts with the first letter of a numeral at
      `i` or later. */
  lemma {:induction false} GreedyHead(t: seq<(nat, string)>, n: nat, i: nat, bound: nat)
    requires Readable(t) && i <= |t|
    requires forall j :: i <= j < |t| ==> LetterValue(t[j].1[0]) <= bound
    ensures Greedy(t, n, i) != [] ==> LetterValue(Greedy(t, n, i)[0]) <= bound
    decreases |t| - i
  {
    if i < |t| {
      var value, numeral := t[i].0, t[i].1;
      assert Entry(t[i]);
      RepeatValue(numeral, n / value);
      if n / value == 0 {
        GreedyHead(t, n % value, i + 1, bound);
      }
    }
  }

  /** The copies taken at entry `i` never end below what the rest of the walk
      starts with, so the two read independently. */
  lemma GreedyJoin(t: seq<(nat, string)>, n: nat, i: nat)
    requires Readable(t) && i < |t|
    ensures var a, rest := Repeat(t[i].1, n / t[i].0), Greedy(t, n % t[i].0, i + 1);
      a == [] || rest == [] || LetterValue(LastLetter(a)) >= LetterValue(rest[0])
  {
    var value, numeral := t[i].0, t[i].1;
    assert Entry(t[i]);
    var k, left := n / value, n % value;
    if k > 0 {
      RepeatLast(numeral, k);
      GreedyHead(t, left, i + 1, LetterValue(LastLetter(numeral)));
    }
  }

  /** The walk from any entry writes exactly the amount it was given: the table
      ends with 1, so nothing is left over. */
  lemma {:induction false} GreedyValue(t: seq<(nat, string)>, n: nat, i: nat)
    requires Readable(t) && i < |t|
    ensures RomanValue(Greedy(t, n, i)) == n
    decreases |t| - i
  {
    var value, numeral := t[i].0, t[i].1;
    assert Entry(t[i]);
    var k, left := n / value, n % value;
    var a, rest := Repeat(numeral, k), Greedy(t, left, i + 1);
    assert Greedy(t, n, i) == a + rest;
    RepeatValue(numeral, k);
    if i + 1 < |t| {
      GreedyValue(t, left, i + 1);
    } else {
      assert rest == [];
    }
    GreedyJoin(t, n, i);
    RomanValueAppend(a, rest);
    DivMod(n, value);
  }

  lemma DivMod(n: nat, v: nat)
    requires v > 0
    ensures n / v * v + n % v == n
  {
  }

  lemma {:induction false} RepeatLetters(s: string, k: nat)
    requires All(s, IsRomanLetter)
    ensures All(Repeat(s, k), IsRomanLetter)
  {
    if k > 0 {
      RepeatLetters(s, k - 1);
      AllAppend(s, Repeat(s, k - 1), IsRomanLetter);
    }
  }

  /** The walk writes only the letters M, D, C, L, X, V and I. */
  lemma {:induction false} GreedyLetters(t: seq<(nat, string)>, n: nat, i: nat)
    requires Readable(t) && i <= |t|
    ensures All(Greedy(t, n, i), IsRomanLetter)
    decreases |t| - i
  {
    if i < |t| {
      var value, numeral := t[i].0, t[i].1;
      assert Entry(t[i]);
      var a, b := Repeat(numeral, n / value), Greedy(t, n % value, i + 1);
      assert Greedy(t, n, i) == a + b;
      RepeatLetters(numeral, n / value);
      GreedyLetters(t, n % value, i + 1);
      AllAppend(a, b, IsRomanLetter);
    }
  }

  /** For 1..4999 `intToRoman` writes a numeral of letters only, that reads back
      as the number. */
  lemma IntToRomanReadsBack(number: int)
    requires 0 < number <= 4999
    ensures Positive(RomanNumerals)
    ensures RomanValue(Greedy(RomanNumerals, number, 0)) == number
    ensures All(Greedy(RomanNumerals, number, 0), IsRomanLetter)
  {
    TableReadable();
    GreedyValue(RomanNumerals, number, 0);
    GreedyLetters(RomanNumerals, number, 0);
  }
}
