/** `Str::convertCase`: split an identifier or phrase into words, then join the
    words again in camel, snake or kebab case as the convention bits say. */
module CaseConvention {
  import opened Php

  // The bits of `$convention`.
  const DASH: nat := 0x01       // with SEPARATED: join with '-' instead of '_'
  const SEPARATED: nat := 0x02  // join words with a separator (otherwise with nothing)
  const UCWORDS: nat := 0x04    // upper-case the first letter of every word
  const LCFIRST: nat := 0x08    // lower-case the very first character at the end
  const UPPER: nat := 0x10      // upper-case everything (otherwise lower-case)

  const CASE_CAMEL_LOWER: int := 0x0C
  const CASE_CAMEL_UPPER: int := 0x04
  const CASE_SNAKE_LOWER: int := 0x02
  const CASE_SNAKE_UPPER: int := 0x12
  const CASE_KEBAB_LOWER: int := 0x03
  const CASE_KEBAB_UPPER: int := 0x07

  // ---------------------------------------------------------------------------
  // Splitting into words
  // ---------------------------------------------------------------------------

  /** `preg_replace('#([A])([B])#', '$1 $2', s)` for one-character classes `a`
      and `b`: leftmost, non-overlapping, the scan resumes after each match. */
  function SpaceBetween(s: string, a: char -> bool, b: char -> bool): string
    decreases |s|
  {
    if |s| < 2 then s
    else if a(s[0]) && b(s[1]) then [s[0], ' ', s[1]] + SpaceBetween(s[2..], a, b)
    else [s[0]] + SpaceBetween(s[1..], a, b)
  }

  /** One step of `preg_replace('#([A-Z]+)([A-Z][a-z])#', '$1 $2', s)` on a
      non-empty `s`: what it writes and how much of `s` it consumes.  A match
      starts at the first position from which a run of at least two capitals is
      followed by a lower-case letter; the greedy `[A-Z]+` then takes all of the
      run but its last capital, which opens the next word.  Anywhere else the
      first character is copied. */
  function AcronymPiece(s: string): (r: (string, nat))
    requires s != []
    ensures 1 <= r.1 <= |s|
    ensures r.0 != [] && r.0[0] == s[0] && r.0[|r.0| - 1] == s[r.1 - 1]
  {
    var j := RunLength(s, IsUpper);
    if 2 <= j < |s| && IsLower(s[j]) then (s[..j - 1] + [' '] + s[j - 1..j + 1], j + 1)
    else ([s[0]], 1)
  }

  /** `preg_replace('#([A-Z]+)([A-Z][a-z])#', '$1 $2', s)`: leftmost,
      non-overlapping, the scan resumes after each match. */
  function SplitAcronyms(s: string): string
    decreases |s|
  {
    if s == [] then []
    else
      var p := AcronymPiece(s);
      p.0 + SplitAcronyms(s[p.1..])
  }

  /** The four boundary patterns, in the order `preg_replace` applies them. */
  function SplitWords(s: string): string
  {
    SpaceBetween(SpaceBetween(SplitAcronyms(SpaceBetween(s, IsLower, IsUpper)), IsLetter, IsDigit), IsDigit, IsLetter)
  }

  /** The words of `s`, separated by single spaces. */
  function Tokenize(s: string): string
  {
    Trim(ReplaceRuns(SplitWords(s), IsNotAlnum, " "))
  }

  // ---------------------------------------------------------------------------
  // Joining the words
  // ---------------------------------------------------------------------------

  /** The delimiters of `ucwords`: " \t\r\n\f\v". */
  predicate IsWordDelimiter(c: char)
  {
    c == ' ' || c == '\t' || c == '\r' || c == '\n' || c as int == 0x0C || c as int == 0x0B
  }

  /** `ucwords`, with `start` telling whether the first character opens a word. */
  function UcWordsFrom(s: string, start: bool): (r: string)
    ensures |r| == |s|
    ensures forall i :: 0 <= i < |s| ==>
      r[i] == if (if i == 0 then start else IsWordDelimiter(s[i - 1])) then ToUpper(s[i]) else s[i]
  {
    if s == [] then [] else [if start then ToUpper(s[0]) else s[0]] + UcWordsFrom(s[1..], IsWordDelimiter(s[0]))
  }

  function UcWords(s: string): string { UcWordsFrom(s, true) }

  /** `lcfirst`. */
  function LcFirst(s: string): string
  {
    if s == [] then [] else [ToLower(s[0])] + s[1..]
  }

  /** What a space between words becomes. */
  function Separator(convention: int): string
  {
    if HasBit(convention, SEPARATED) then (if HasBit(convention, DASH) then "-" else "_") else ""
  }

  /** How character `i` of the word text is cased before the words are joined. */
  function WordChar(t: string, i: nat, convention: int): char
    requires i < |t|
  {
    var c := if HasBit(convention, UPPER) then ToUpper(t[i]) else ToLower(t[i]);
    if HasBit(convention, UCWORDS) && (i == 0 || IsWordDelimiter(t[i - 1])) then ToUpper(c) else c
  }

  /** The case and `ucwords` stages. */
  function Worded(t: string, convention: int): (w: string)
    ensures |w| == |t|
    ensures forall i :: 0 <= i < |t| ==> w[i] == WordChar(t, i, convention)
  {
    var cased := if HasBit(convention, UPPER) then Upper(t) else Lower(t);
    assert forall i :: 0 <= i < |t| ==> IsWordDelimiter(cased[i]) == IsWordDelimiter(t[i]);
    if HasBit(convention, UCWORDS) then UcWords(cased) else cased
  }

  /** The words `t` (separated by spaces) written in `convention`. */
  function Recombine(t: string, convention: int): string
  {
    var joined := ReplaceChar(Worded(t, convention), ' ', Separator(convention));
    if HasBit(convention, LCFIRST) then LcFirst(joined) else joined
  }

  /** `Str::convertCase($string, $convention)`. */
  function ConvertCase(s: string, convention: int): string
  {
    Recombine(Tokenize(s), convention)
  }

  // ---------------------------------------------------------------------------
  // What the boundary patterns do
  // ---------------------------------------------------------------------------

  lemma SpaceBetweenHead(s: string, a: char -> bool, b: char -> bool)
    requires s != []
    ensures SpaceBetween(s, a, b) != [] && SpaceBetween(s, a, b)[0] == s[0]
  {
  }

  /** With disjoint classes that both exclude the space, no `a`-`b` pair survives. */
  lemma {:induction false} SpaceBetweenSplits(s: string, a: char -> bool, b: char -> bool)
    requires forall c :: !(a(c) && b(c))
    requires !a(' ') && !b(' ')
    ensures NoAdjacent(SpaceBetween(s, a, b), a, b)
    decreases |s|
  {
    if |s| >= 2 {
      if a(s[0]) && b(s[1]) {
        var rest := SpaceBetween(s[2..], a, b);
        SpaceBetweenSplits(s[2..], a, b);
        AdjacentCons(s[1], rest, a, b);
        AdjacentCons(' ', [s[1]] + rest, a, b);
        AdjacentCons(s[0], [' '] + ([s[1]] + rest), a, b);
        assert [s[0], ' ', s[1]] + rest == [s[0]] + ([' '] + ([s[1]] + rest));
      } else {
        SpaceBetweenSplits(s[1..], a, b);
        SpaceBetweenHead(s[1..], a, b);
        AdjacentCons(s[0], SpaceBetween(s[1..], a, b), a, b);
      }
    }
  }

  /** Inserting spaces creates no new neighbours of classes that exclude the space. */
  lemma {:induction false} SpaceBetweenKeeps(s: string, a: char -> bool, b: char -> bool, c: char -> bool, d: char -> bool)
    requires NoAdjacent(s, c, d) && !c(' ') && !d(' ')
    ensures NoAdjacent(SpaceBetween(s, a, b), c, d)
    decreases |s|
  {
    if |s| >= 2 {
      if a(s[0]) && b(s[1]) {
        var rest := SpaceBetween(s[2..], a, b);
        NoAdjacentSlice(s, c, d, 2, |s|);
        SpaceBetweenKeeps(s[2..], a, b, c, d);
        if |s| > 2 {
          SpaceBetweenHead(s[2..], a, b);
        }
        AdjacentCons(s[1], rest, c, d);
        AdjacentCons(' ', [s[1]] + rest, c, d);
        AdjacentCons(s[0], [' '] + ([s[1]] + rest), c, d);
        assert [s[0], ' ', s[1]] + rest == [s[0]] + ([' '] + ([s[1]] + rest));
      } else {
        NoAdjacentSlice(s, c, d, 1, |s|);
        SpaceBetweenKeeps(s[1..], a, b, c, d);
        SpaceBetweenHead(s[1..], a, b);
        AdjacentCons(s[0], SpaceBetween(s[1..], a, b), c, d);
      }
    }
  }

  /** A space between two characters adds nothing to a class without the space. */
  lemma KeepSpaced(x: char, y: char, q: char -> bool)
    requires !q(' ')
    ensures Keep([x, ' ', y], q) == Keep([x, y], q)
  {
    KeepAppend([x], [' ', y], q);
    KeepAppend([' '], [y], q);
    assert [x, ' ', y] == [x] + [' ', y] && [' ', y] == [' '] + [y];
    KeepAppend([x], [y], q);
  }

  /** Inserting spaces keeps, in order, the characters of any class without the
      space: both the letters and digits and everything but the space. */
  lemma {:induction false} SpaceBetweenContent(s: string, a: char -> bool, b: char -> bool, q: char -> bool)
    requires !q(' ')
    ensures Keep(SpaceBetween(s, a, b), q) == Keep(s, q)
    decreases |s|
  {
    if |s| >= 2 {
      if a(s[0]) && b(s[1]) {
        var rest := s[2..];
        SpaceBetweenContent(rest, a, b, q);
        KeepAppend([s[0], ' ', s[1]], SpaceBetween(rest, a, b), q);
        assert s == [s[0], s[1]] + rest;
        KeepAppend([s[0], s[1]], rest, q);
        KeepSpaced(s[0], s[1], q);
      } else {
        var rest := s[1..];
        SpaceBetweenContent(rest, a, b, q);
        KeepAppend([s[0]], SpaceBetween(rest, a, b), q);
        assert s == [s[0]] + rest;
        KeepAppend([s[0]], rest, q);
      }
    }
  }

  lemma {:induction false} SpaceBetweenNone(s: string, a: char -> bool, b: char -> bool)
    requires NoAdjacent(s, a, b)
    ensures SpaceBetween(s, a, b) == s
    decreases |s|
  {
    if |s| >= 2 {
      NoAdjacentSlice(s, a, b, 1, |s|);
      SpaceBetweenNone(s[1..], a, b);
    }
  }

  lemma SplitAcronymsStep(s: string)
    requires s != []
    ensures SplitAcronyms(s) == AcronymPiece(s).0 + SplitAcronyms(s[AcronymPiece(s).1..])
  {
  }

  lemma SplitAcronymsHead(s: string)
    requires s != []
    ensures SplitAcronyms(s) != [] && SplitAcronyms(s)[0] == s[0]
  {
  }

  /** The piece copies the neighbours of `s`, with a space that belongs to
      neither class put between the two capitals that end the run. */
  lemma PieceKeeps(s: string, c: char -> bool, d: char -> bool)
    requires s != [] && NoAdjacent(s, c, d) && !c(' ') && !d(' ')
    ensures NoAdjacent(AcronymPiece(s).0, c, d)
  {
    var j := RunLength(s, IsUpper);
    if 2 <= j < |s| && IsLower(s[j]) {
      var head, pair := s[..j - 1], s[j - 1..j + 1];
      NoAdjacentSlice(s, c, d, 0, j - 1);
      NoAdjacentSlice(s, c, d, j - 1, j + 1);
      AdjacentAppend(head, [' '], c, d);
      AdjacentAppend(head + [' '], pair, c, d);
    }
  }

  /** Splitting acronyms creates no new neighbours of classes that exclude the space. */
  lemma {:induction false} SplitAcronymsKeeps(s: string, c: char -> bool, d: char -> bool)
    requires NoAdjacent(s, c, d) && !c(' ') && !d(' ')
    ensures NoAdjacent(SplitAcronyms(s), c, d)
    decreases |s|
  {
    if s != [] {
      var p := AcronymPiece(s);
      var rest := s[p.1..];
      NoAdjacentSlice(s, c, d, p.1, |s|);
      SplitAcronymsKeeps(rest, c, d);
      PieceKeeps(s, c, d);
      if rest != [] {
        SplitAcronymsHead(rest);
        assert rest[0] == s[p.1];
        assert !(c(s[p.1 - 1]) && d(s[p.1]));
      }
      AdjacentAppend(p.0, SplitAcronyms(rest), c, d);
    }
  }

  /** A space inserted anywhere adds nothing to a class without the space. */
  lemma KeepSpliced(head: string, tail: string, q: char -> bool)
    requires !q(' ')
    ensures Keep(head + [' '] + tail, q) == Keep(head + tail, q)
  {
    KeepAppend(head + [' '], tail, q);
    KeepAppend(head, [' '], q);
    KeepAppend(head, tail, q);
  }

  /** The piece has the characters of `q` of what it consumes. */
  lemma PieceContent(s: string, q: char -> bool)
    requires s != [] && !q(' ')
    ensures Keep(AcronymPiece(s).0, q) == Keep(s[..AcronymPiece(s).1], q)
  {
    var j := RunLength(s, IsUpper);
    if 2 <= j < |s| && IsLower(s[j]) {
      var head, pair := s[..j - 1], s[j - 1..j + 1];
      KeepSpliced(head, pair, q);
      assert s[..j + 1] == head + pair;
    } else {
      assert s[..1] == [s[0]];
    }
  }

  /** A piece followed by anything with the characters of `q` of the rest of
      `s` has the characters of `q` of `s`. */
  lemma PieceThenContent(s: string, out: string, q: char -> bool)
    requires s != [] && !q(' ')
    requires Keep(out, q) == Keep(s[AcronymPiece(s).1..], q)
    ensures Keep(AcronymPiece(s).0 + out, q) == Keep(s, q)
  {
    var k := AcronymPiece(s).1;
    PieceContent(s, q);
    KeepAppend(AcronymPiece(s).0, out, q);
    KeepAppend(s[..k], s[k..], q);
    assert s[..k] + s[k..] == s;
  }

  /** Splitting acronyms only inserts spaces: it keeps, in order, the
      characters of any class without the space, so both the letters and
      digits and everything but the space. */
  lemma {:induction false} SplitAcronymsContent(s: string, q: char -> bool)
    requires !q(' ')
    ensures Keep(SplitAcronyms(s), q) == Keep(s, q)
    decreases |s|
  {
    if s != [] {
      var k := AcronymPiece(s).1;
      SplitAcronymsContent(s[k..], q);
      SplitAcronymsStep(s);
      PieceThenContent(s, SplitAcronyms(s[k..]), q);
    }
  }

  /** No capital pair directly followed by a lower-case letter. */
  predicate NoAcronymBoundary(s: string)
  {
    forall i :: 0 <= i < |s| - 2 ==> !(IsUpper(s[i]) && IsUpper(s[i + 1]) && IsLower(s[i + 2]))
  }

  /** Without a boundary the piece is the first character alone. */
  lemma PieceNone(s: string)
    requires s != [] && NoAcronymBoundary(s)
    ensures AcronymPiece(s) == ([s[0]], 1)
  {
    var j := RunLength(s, IsUpper);
    assert !(2 <= j < |s| && IsLower(s[j])) by {
      if 2 <= j < |s| {
        assert IsUpper(s[j - 2]) && IsUpper(s[j - 1]);
      }
    }
  }

  lemma NoAcronymBoundaryTail(s: string)
    requires s != [] && NoAcronymBoundary(s)
    ensures NoAcronymBoundary(s[1..])
  {
    var rest := s[1..];
    forall i | 0 <= i < |rest| - 2
      ensures !(IsUpper(rest[i]) && IsUpper(rest[i + 1]) && IsLower(rest[i + 2]))
    {
      assert rest[i] == s[i + 1] && rest[i + 1] == s[i + 2] && rest[i + 2] == s[i + 3];
    }
  }

  lemma {:induction false} SplitAcronymsNone(s: string)
    requires NoAcronymBoundary(s)
    ensures SplitAcronyms(s) == s
    decreases |s|
  {
    if s != [] {
      PieceNone(s);
      NoAcronymBoundaryTail(s);
      SplitAcronymsNone(s[1..]);
      SplitAcronymsStep(s);
      assert [s[0]] + s[1..] == s;
    }
  }

  /** The cons step of `NoAcronymBoundary`. */
  lemma BoundaryCons(c: char, t: string)
    requires NoAcronymBoundary(t)
    requires |t| >= 2 ==> !(IsUpper(c) && IsUpper(t[0]) && IsLower(t[1]))
    ensures NoAcronymBoundary([c] + t)
  {
    var s := [c] + t;
    forall i | 0 <= i < |s| - 2 ensures !(IsUpper(s[i]) && IsUpper(s[i + 1]) && IsLower(s[i + 2])) {
      if i > 0 {
        assert s[i] == t[i - 1] && s[i + 1] == t[i] && s[i + 2] == t[i + 1];
      }
    }
  }

  lemma BoundarySlice(s: string, i: nat, j: nat)
    requires i <= j <= |s| && NoAcronymBoundary(s)
    ensures NoAcronymBoundary(s[i..j])
  {
    var t := s[i..j];
    forall k | 0 <= k < |t| - 2 ensures !(IsUpper(t[k]) && IsUpper(t[k + 1]) && IsLower(t[k + 2])) {
      assert t[k] == s[i + k] && t[k + 1] == s[i + k + 1] && t[k + 2] == s[i + k + 2];
    }
  }

  /** Capitals followed by a space open no boundary. */
  lemma BoundaryAfterCapitals(u: string, t: string)
    requires All(u, IsUpper) && NoAcronymBoundary(t)
    requires t != [] && t[0] == ' '
    ensures NoAcronymBoundary(u + t)
  {
    var s := u + t;
    forall i | 0 <= i < |s| - 2 ensures !(IsUpper(s[i]) && IsUpper(s[i + 1]) && IsLower(s[i + 2])) {
      if i >= |u| {
        assert s[i] == t[i - |u|] && s[i + 1] == t[i - |u| + 1] && s[i + 2] == t[i - |u| + 2];
      } else if i + 2 < |u| {
        assert IsUpper(s[i + 2]);
      } else if i + 2 == |u| {
        assert s[i + 2] == ' ';
      } else {
        assert s[i + 1] == ' ';
      }
    }
  }

  /** The second character of the spaced text is the second of `s` or a space. */
  lemma SpaceBetweenSecond(s: string, a: char -> bool, b: char -> bool)
    requires |s| >= 2
    ensures |SpaceBetween(s, a, b)| >= 2
    ensures SpaceBetween(s, a, b)[1] == s[1] || SpaceBetween(s, a, b)[1] == ' '
  {
    if !(a(s[0]) && b(s[1])) {
      SpaceBetweenHead(s[1..], a, b);
    }
  }

  /** Inserting spaces creates no acronym boundary. */
  lemma {:induction false} SpaceBetweenBoundary(s: string, a: char -> bool, b: char -> bool)
    requires NoAcronymBoundary(s)
    ensures NoAcronymBoundary(SpaceBetween(s, a, b))
    decreases |s|
  {
    if |s| >= 2 {
      if a(s[0]) && b(s[1]) {
        var rest := SpaceBetween(s[2..], a, b);
        BoundarySlice(s, 2, |s|);
        SpaceBetweenBoundary(s[2..], a, b);
        if |s| > 2 {
          SpaceBetweenHead(s[2..], a, b);
        }
        if |s| > 3 {
          SpaceBetweenSecond(s[2..], a, b);
        }
        BoundaryCons(s[1], rest);
        BoundaryCons(' ', [s[1]] + rest);
        BoundaryCons(s[0], [' '] + ([s[1]] + rest));
        assert [s[0], ' ', s[1]] + rest == [s[0]] + ([' '] + ([s[1]] + rest));
      } else {
        var rest := SpaceBetween(s[1..], a, b);
        BoundarySlice(s, 1, |s|);
        SpaceBetweenBoundary(s[1..], a, b);
        SpaceBetweenHead(s[1..], a, b);
        if |s| > 2 {
          SpaceBetweenSecond(s[1..], a, b);
        }
        BoundaryCons(s[0], rest);
      }
    }
  }

  /** The second character after splitting acronyms is the second of `s` or a space. */
  lemma SplitAcronymsSecond(s: string)
    requires |s| >= 2
    ensures |SplitAcronyms(s)| >= 2
    ensures SplitAcronyms(s)[1] == s[1] || SplitAcronyms(s)[1] == ' '
  {
    SplitAcronymsStep(s);
    if AcronymPiece(s).1 == 1 {
      SplitAcronymsHead(s[1..]);
    }
  }

  /** A split piece ends in a capital and a lower-case letter after an
      inserted space, so it opens no boundary with what follows. */
  lemma SplitPieceBoundary(s: string, tail: string)
    requires s != [] && AcronymPiece(s).1 > 1 && NoAcronymBoundary(tail)
    ensures NoAcronymBoundary(AcronymPiece(s).0 + tail)
  {
    var j := RunLength(s, IsUpper);
    var head := s[..j - 1];
    BoundaryCons(s[j], tail);
    BoundaryCons(s[j - 1], [s[j]] + tail);
    BoundaryCons(' ', [s[j - 1]] + ([s[j]] + tail));
    var t := [' '] + ([s[j - 1]] + ([s[j]] + tail));
    BoundaryAfterCapitals(head, t);
    assert AcronymPiece(s).0 + tail == head + t;
  }

  /** A character copied alone is not the start of a boundary: two capitals
      before a lower-case letter would have been split. */
  lemma SinglePieceBoundary(s: string, tail: string)
    requires s != [] && AcronymPiece(s).1 == 1 && NoAcronymBoundary(tail)
    requires |tail| >= 2 ==> |s| >= 3 && tail[0] == s[1] && (tail[1] == s[2] || tail[1] == ' ')
    ensures NoAcronymBoundary([s[0]] + tail)
  {
    if |s| >= 2 && IsUpper(s[0]) && IsUpper(s[1]) {
      assert RunLength(s[1..], IsUpper) >= 1;
    }
    BoundaryCons(s[0], tail);
  }

  lemma SplitAcronymsSingle(c: char)
    ensures SplitAcronyms([c]) == [c]
  {
    SplitAcronymsStep([c]);
    assert [c][1..] == [];
  }

  /** The acronym pattern leaves no capital pair before a lower-case letter:
      every boundary it looks for is split. */
  lemma {:induction false} SplitAcronymsSplits(s: string)
    ensures NoAcronymBoundary(SplitAcronyms(s))
    decreases |s|
  {
    if s != [] {
      var p := AcronymPiece(s);
      var rest := s[p.1..];
      var tail := SplitAcronyms(rest);
      SplitAcronymsSplits(rest);
      SplitAcronymsStep(s);
      if p.1 > 1 {
        SplitPieceBoundary(s, tail);
      } else {
        if |rest| == 1 {
          SplitAcronymsSingle(rest[0]);
          assert rest == [rest[0]];
        } else if |rest| >= 2 {
          SplitAcronymsHead(rest);
          SplitAcronymsSecond(rest);
        }
        SinglePieceBoundary(s, tail);
      }
    }
  }

  /** Rewriting the runs of other characters into one space creates no boundary. */
  lemma {:induction false} ReplaceRunsBoundary(s: string)
    requires NoAcronymBoundary(s)
    ensures NoAcronymBoundary(ReplaceRuns(s, IsNotAlnum, " "))
    decreases |s|
  {
    if s != [] {
      if IsNotAlnum(s[0]) {
        var n := RunLength(s, IsNotAlnum);
        BoundarySlice(s, n, |s|);
        ReplaceRunsBoundary(s[n..]);
        BoundaryCons(' ', ReplaceRuns(s[n..], IsNotAlnum, " "));
      } else {
        var tail := ReplaceRuns(s[1..], IsNotAlnum, " ");
        BoundarySlice(s, 1, |s|);
        ReplaceRunsBoundary(s[1..]);
        if |s| >= 2 {
          ReplaceRunsHead(s[1..], IsNotAlnum, ' ');
          if !IsNotAlnum(s[1]) {
            assert tail == [s[1]] + ReplaceRuns(s[2..], IsNotAlnum, " ");
            if |s| >= 3 {
              ReplaceRunsHead(s[2..], IsNotAlnum, ' ');
            }
          }
        }
        BoundaryCons(s[0], tail);
      }
    }
  }

  // ---------------------------------------------------------------------------
  // The word text
  // ---------------------------------------------------------------------------

  predicate IsTokenChar(c: char) { IsAlnum(c) || c == ' ' }

  /** Words of letters and digits, one space between two words, no space at
      either end, and every case and letter/digit boundary split. */
  predicate Tokenized(t: string)
  {
    && All(t, IsTokenChar)
    && NotAtEnds(t, Is(' '))
    && NoAdjacent(t, Is(' '), Is(' '))
    && NoAdjacent(t, IsLower, IsUpper)
    && NoAdjacent(t, IsLetter, IsDigit)
    && NoAdjacent(t, IsDigit, IsLetter)
  }

  /** The boundary patterns leave no lower-upper, letter-digit or digit-letter
      pair, and drop no letter or digit. */
  lemma SplitWordsShape(s: string)
    ensures NoAdjacent(SplitWords(s), IsLower, IsUpper)
    ensures NoAdjacent(SplitWords(s), IsLetter, IsDigit)
    ensures NoAdjacent(SplitWords(s), IsDigit, IsLetter)
    ensures NoAcronymBoundary(SplitWords(s))
    ensures Keep(SplitWords(s), IsAlnum) == Keep(s, IsAlnum)
    ensures Keep(SplitWords(s), IsOther(' ')) == Keep(s, IsOther(' '))
  {
    var w1 := SpaceBetween(s, IsLower, IsUpper);
    var w2 := SplitAcronyms(w1);
    var w3 := SpaceBetween(w2, IsLetter, IsDigit);
    SpaceBetweenSplits(s, IsLower, IsUpper);
    SplitAcronymsKeeps(w1, IsLower, IsUpper);
    SpaceBetweenKeeps(w2, IsLetter, IsDigit, IsLower, IsUpper);
    SpaceBetweenSplits(w2, IsLetter, IsDigit);
    SpaceBetweenKeeps(w3, IsDigit, IsLetter, IsLower, IsUpper);
    SpaceBetweenKeeps(w3, IsDigit, IsLetter, IsLetter, IsDigit);
    SpaceBetweenSplits(w3, IsDigit, IsLetter);
    SpaceBetweenContent(s, IsLower, IsUpper, IsAlnum);
    SplitAcronymsContent(w1, IsAlnum);
    SpaceBetweenContent(w2, IsLetter, IsDigit, IsAlnum);
    SpaceBetweenContent(w3, IsDigit, IsLetter, IsAlnum);
    SplitAcronymsSplits(w1);
    SpaceBetweenBoundary(w2, IsLetter, IsDigit);
    SpaceBetweenBoundary(w3, IsDigit, IsLetter);
    SpaceBetweenContent(s, IsLower, IsUpper, IsOther(' '));
    SplitAcronymsContent(w1, IsOther(' '));
    SpaceBetweenContent(w2, IsLetter, IsDigit, IsOther(' '));
    SpaceBetweenContent(w3, IsDigit, IsLetter, IsOther(' '));
  }

  /** `convertCase` first reduces its input to words: the word text is
      `Tokenized` and holds exactly the letters and digits of the input. */
  lemma TokenizeShape(s: string)
    ensures Tokenized(Tokenize(s))
    ensures NoAcronymBoundary(Tokenize(s))
    ensures Keep(Tokenize(s), IsAlnum) == Keep(s, IsAlnum)
  {
    var w := SplitWords(s);
    var v := ReplaceRuns(w, IsNotAlnum, " ");
    var t := Tokenize(s);
    SplitWordsShape(s);
    ReplaceRunsKeepsNoAdjacent(w, IsNotAlnum, ' ', IsLower, IsUpper);
    ReplaceRunsKeepsNoAdjacent(w, IsNotAlnum, ' ', IsLetter, IsDigit);
    ReplaceRunsKeepsNoAdjacent(w, IsNotAlnum, ' ', IsDigit, IsLetter);
    ReplaceRunsNoDouble(w, IsNotAlnum, ' ');
    ReplaceRunsAll(w, IsNotAlnum, " ", IsTokenChar);
    TrimKeeps(v, IsTrimChar, IsTokenChar, IsLower, IsUpper);
    TrimKeeps(v, IsTrimChar, IsTokenChar, IsLetter, IsDigit);
    TrimKeeps(v, IsTrimChar, IsTokenChar, IsDigit, IsLetter);
    TrimKeeps(v, IsTrimChar, IsTokenChar, IsNotAlnum, IsNotAlnum);
    assert NoAdjacent(t, Is(' '), Is(' ')) by {
      forall i | 0 <= i < |t| - 1 ensures !(t[i] == ' ' && t[i + 1] == ' ') {
        assert !(IsNotAlnum(t[i]) && IsNotAlnum(t[i + 1]));
      }
    }
    assert Keep(" ", IsAlnum) == [];
    ReplaceRunsKeep(w, IsNotAlnum, " ", IsAlnum);
    TrimKeepsContent(v, IsTrimChar, IsAlnum);
    ReplaceRunsBoundary(w);
    var i, j := TrimSlice(v, IsTrimChar);
    BoundarySlice(v, i, j);
  }

  /** Text with no boundary left for the four patterns to split. */
  lemma SplitWordsNone(t: string)
    requires NoAdjacent(t, IsLower, IsUpper) && NoAcronymBoundary(t)
    requires NoAdjacent(t, IsLetter, IsDigit) && NoAdjacent(t, IsDigit, IsLetter)
    ensures SplitWords(t) == t
  {
    SpaceBetweenNone(t, IsLower, IsUpper);
    SplitAcronymsNone(t);
    SpaceBetweenNone(t, IsLetter, IsDigit);
    SpaceBetweenNone(t, IsDigit, IsLetter);
  }

  /** Single spaces between words are runs that become themselves. */
  lemma TokenRunsNone(t: string)
    requires All(t, IsTokenChar) && NoAdjacent(t, Is(' '), Is(' '))
    ensures ReplaceRuns(t, IsNotAlnum, " ") == t
  {
    assert NoAdjacent(t, IsNotAlnum, IsNotAlnum) by {
      forall i | 0 <= i < |t| - 1 ensures !(IsNotAlnum(t[i]) && IsNotAlnum(t[i + 1])) {
        assert IsTokenChar(t[i]) && IsTokenChar(t[i + 1]);
      }
    }
    ReplaceRunsSingles(t, IsNotAlnum, ' ');
    var u := ReplaceEach(t, IsNotAlnum, ' ');
    forall i | 0 <= i < |t| ensures u[i] == t[i] {
      assert IsTokenChar(t[i]);
    }
    assert u == t;
  }

  /** Word text starts and ends with a letter or digit. */
  lemma TokenEnds(t: string)
    requires All(t, IsTokenChar) && NotAtEnds(t, Is(' '))
    ensures NotAtEnds(t, IsTrimChar)
  {
    if t != [] {
      assert IsTokenChar(t[0]) && IsTokenChar(t[|t| - 1]);
    }
  }

  /** When the four patterns already leave word text, that is the result. */
  lemma TokenizeOfSplit(s: string, t: string)
    requires SplitWords(s) == t && Tokenized(t)
    ensures Tokenize(s) == t
  {
    TokenRunsNone(t);
    TokenEnds(t);
    TrimNone(t, IsTrimChar);
  }

  /** Word text with no acronym boundary left is its own word text. */
  lemma TokenizeFixes(t: string)
    requires Tokenized(t) && NoAcronymBoundary(t)
    ensures Tokenize(t) == t
  {
    SplitWordsNone(t);
    TokenizeOfSplit(t, t);
  }

  // ---------------------------------------------------------------------------
  // Where the spaces go
  // ---------------------------------------------------------------------------

  lemma {:induction false} SpaceBetweenLast(s: string, a: char -> bool, b: char -> bool)
    requires s != []
    ensures SpaceBetween(s, a, b) != []
    ensures SpaceBetween(s, a, b)[|SpaceBetween(s, a, b)| - 1] == s[|s| - 1]
    decreases |s|
  {
    if |s| >= 2 {
      if a(s[0]) && b(s[1]) {
        if |s| > 2 {
          SpaceBetweenLast(s[2..], a, b);
        }
      } else {
        SpaceBetweenLast(s[1..], a, b);
      }
    }
  }

  /** Where no `a`-`b` pair straddles the cut, the spacing works on the halves apart. */
  lemma {:induction false} SpaceBetweenAppend(u: string, w: string, a: char -> bool, b: char -> bool)
    requires u == [] || w == [] || !(a(u[|u| - 1]) && b(w[0]))
    ensures SpaceBetween(u + w, a, b) == SpaceBetween(u, a, b) + SpaceBetween(w, a, b)
    decreases |u|
  {
    var uw := u + w;
    if u == [] {
      assert uw == w;
    } else if w == [] {
      assert uw == u;
    } else if |u| == 1 {
      assert uw[1..] == w;
    } else if a(u[0]) && b(u[1]) {
      assert uw[0] == u[0] && uw[1] == u[1] && uw[2..] == u[2..] + w;
      SpaceBetweenAppend(u[2..], w, a, b);
      AppendAfter([u[0], ' ', u[1]], SpaceBetween(u[2..], a, b), SpaceBetween(w, a, b));
    } else {
      assert uw[0] == u[0] && uw[1] == u[1] && uw[1..] == u[1..] + w;
      SpaceBetweenAppend(u[1..], w, a, b);
      AppendAfter([u[0]], SpaceBetween(u[1..], a, b), SpaceBetween(w, a, b));
    }
  }

  lemma {:induction false} SplitAcronymsLast(s: string)
    requires s != []
    ensures SplitAcronyms(s) != []
    ensures SplitAcronyms(s)[|SplitAcronyms(s)| - 1] == s[|s| - 1]
    decreases |s|
  {
    var p := AcronymPiece(s);
    var rest := s[p.1..];
    SplitAcronymsStep(s);
    if p.1 < |s| {
      SplitAcronymsLast(rest);
      var tail := SplitAcronyms(rest);
      assert rest[|rest| - 1] == s[|s| - 1];
      assert (p.0 + tail)[|p.0 + tail| - 1] == tail[|tail| - 1];
    } else {
      assert rest == [];
      assert SplitAcronyms(rest) == [];
      assert p.0 + SplitAcronyms(rest) == p.0;
    }
  }

  /** A cut after a character that is no capital, or before one that is no
      letter, is not inside a run the acronym pattern looks at. */
  lemma PieceAppend(u: string, w: string)
    requires u != [] && (w == [] || !IsUpper(u[|u| - 1]) || !IsLetter(w[0]))
    ensures AcronymPiece(u + w) == AcronymPiece(u)
  {
    var j := RunLength(u, IsUpper);
    if j == |u| {
      assert IsUpper(u[|u| - 1]);
    }
    RunLengthAppend(u, w, IsUpper);
    if 2 <= j < |u| {
      assert (u + w)[..j - 1] == u[..j - 1];
      assert (u + w)[j - 1..j + 1] == u[j - 1..j + 1];
      assert (u + w)[j] == u[j];
    } else if j == |u| && w != [] {
      assert (u + w)[j] == w[0];
    }
  }

  /** One step of the acronym split on `u + w`, when the piece of `u` is the piece of `u + w`. */
  lemma SplitAcronymsCut(u: string, w: string)
    requires u != [] && AcronymPiece(u + w) == AcronymPiece(u)
    ensures SplitAcronyms(u + w) == AcronymPiece(u).0 + SplitAcronyms(u[AcronymPiece(u).1..] + w)
  {
    var p := AcronymPiece(u + w);
    var k := p.1;
    assert k <= |u|;
    assert (u + w)[k..] == u[k..] + w;
    assert SplitAcronyms(u + w) == p.0 + SplitAcronyms((u + w)[k..]);
  }

  /** Where the cut cannot split a match, acronyms are split on the halves apart. */
  lemma {:induction false} SplitAcronymsAppend(u: string, w: string)
    requires u == [] || w == [] || !IsUpper(u[|u| - 1]) || !IsLetter(w[0])
    ensures SplitAcronyms(u + w) == SplitAcronyms(u) + SplitAcronyms(w)
    decreases |u|
  {
    if u == [] {
      assert u + w == w;
    } else {
      var p := AcronymPiece(u);
      var rest := u[p.1..];
      PieceAppend(u, w);
      SplitAcronymsCut(u, w);
      if rest != [] {
        assert rest[|rest| - 1] == u[|u| - 1];
      }
      SplitAcronymsAppend(rest, w);
      AppendAfter(p.0, SplitAcronyms(rest), SplitAcronyms(w));
    }
  }

  /** Two neighbours none of the four patterns puts a space between. */
  predicate Joinable(x: char, y: char)
  {
    && !(IsLower(x) && IsUpper(y))
    && (!IsUpper(x) || !IsLetter(y))
    && !(IsLetter(x) && IsDigit(y))
    && !(IsDigit(x) && IsLetter(y))
  }

  /** The four patterns keep the first and last character of the text. */
  lemma SplitWordsEnds(s: string)
    requires s != []
    ensures SplitWords(s) != [] && SplitWords(s)[0] == s[0]
    ensures SplitWords(s)[|SplitWords(s)| - 1] == s[|s| - 1]
  {
    var w1 := SpaceBetween(s, IsLower, IsUpper);
    var w2 := SplitAcronyms(w1);
    var w3 := SpaceBetween(w2, IsLetter, IsDigit);
    SpaceBetweenHead(s, IsLower, IsUpper);
    SpaceBetweenLast(s, IsLower, IsUpper);
    SplitAcronymsHead(w1);
    SplitAcronymsLast(w1);
    SpaceBetweenHead(w2, IsLetter, IsDigit);
    SpaceBetweenLast(w2, IsLetter, IsDigit);
    SpaceBetweenHead(w3, IsDigit, IsLetter);
    SpaceBetweenLast(w3, IsDigit, IsLetter);
  }

  /** One spacing pass across a cut it does not match, with the ends it keeps. */
  lemma SpaceBetweenAcross(u: string, w: string, a: char -> bool, b: char -> bool)
    requires u != [] && w != [] && !(a(u[|u| - 1]) && b(w[0]))
    ensures SpaceBetween(u + w, a, b) == SpaceBetween(u, a, b) + SpaceBetween(w, a, b)
    ensures SpaceBetween(u, a, b) != [] && SpaceBetween(u, a, b)[|SpaceBetween(u, a, b)| - 1] == u[|u| - 1]
    ensures SpaceBetween(w, a, b) != [] && SpaceBetween(w, a, b)[0] == w[0]
  {
    SpaceBetweenAppend(u, w, a, b);
    SpaceBetweenLast(u, a, b);
    SpaceBetweenHead(w, a, b);
  }

  /** The acronym pass across a cut it does not match, with the ends it keeps. */
  lemma SplitAcronymsAcross(u: string, w: string)
    requires u != [] && w != [] && (!IsUpper(u[|u| - 1]) || !IsLetter(w[0]))
    ensures SplitAcronyms(u + w) == SplitAcronyms(u) + SplitAcronyms(w)
    ensures SplitAcronyms(u) != [] && SplitAcronyms(u)[|SplitAcronyms(u)| - 1] == u[|u| - 1]
    ensures SplitAcronyms(w) != [] && SplitAcronyms(w)[0] == w[0]
  {
    SplitAcronymsAppend(u, w);
    SplitAcronymsLast(u);
    SplitAcronymsHead(w);
  }

  /** The two digit passes across a joinable cut. */
  lemma DigitPassesAppend(u: string, w: string)
    requires u != [] && w != [] && Joinable(u[|u| - 1], w[0])
    ensures SpaceBetween(SpaceBetween(u + w, IsLetter, IsDigit), IsDigit, IsLetter)
         == SpaceBetween(SpaceBetween(u, IsLetter, IsDigit), IsDigit, IsLetter)
          + SpaceBetween(SpaceBetween(w, IsLetter, IsDigit), IsDigit, IsLetter)
  {
    SpaceBetweenAcross(u, w, IsLetter, IsDigit);
    SpaceBetweenAcross(SpaceBetween(u, IsLetter, IsDigit), SpaceBetween(w, IsLetter, IsDigit), IsDigit, IsLetter);
  }

  /** The last three passes across a joinable cut. */
  lemma LaterPassesAppend(u: string, w: string)
    requires u != [] && w != [] && Joinable(u[|u| - 1], w[0])
    ensures SpaceBetween(SpaceBetween(SplitAcronyms(u + w), IsLetter, IsDigit), IsDigit, IsLetter)
         == SpaceBetween(SpaceBetween(SplitAcronyms(u), IsLetter, IsDigit), IsDigit, IsLetter)
          + SpaceBetween(SpaceBetween(SplitAcronyms(w), IsLetter, IsDigit), IsDigit, IsLetter)
  {
    SplitAcronymsAcross(u, w);
    DigitPassesAppend(SplitAcronyms(u), SplitAcronyms(w));
  }

  /** Across a joinable cut, the four patterns work on the halves apart. */
  lemma SplitWordsAppend(u: string, w: string)
    requires u != [] && w != [] && Joinable(u[|u| - 1], w[0])
    ensures SplitWords(u + w) == SplitWords(u) + SplitWords(w)
  {
    SpaceBetweenAcross(u, w, IsLower, IsUpper);
    LaterPassesAppend(SpaceBetween(u, IsLower, IsUpper), SpaceBetween(w, IsLower, IsUpper));
  }

  /** Text without letters or digits gives the four patterns nothing to split. */
  lemma SplitWordsOther(c: string)
    requires All(c, IsNotAlnum)
    ensures SplitWords(c) == c
  {
    SplitWordsNone(c);
  }

  /** One step of the word text: rewriting runs and trimming both work on the
      halves of a cut between two letters or digits, with `m` between them. */
  lemma TokenizeAround(a: string, m: string, b: string)
    requires a != [] && b != [] && IsAlnum(a[|a| - 1]) && IsAlnum(b[0])
    requires m == [] || m == " "
    ensures Trim(ReplaceRuns(a, IsNotAlnum, " ") + m + ReplaceRuns(b, IsNotAlnum, " "))
         == Trim(ReplaceRuns(a, IsNotAlnum, " ")) + m + Trim(ReplaceRuns(b, IsNotAlnum, " "))
  {
    var x, y := ReplaceRuns(a, IsNotAlnum, " "), ReplaceRuns(b, IsNotAlnum, " ");
    ReplaceRunsLast(a, IsNotAlnum, ' ');
    ReplaceRunsHead(b, IsNotAlnum, ' ');
    assert x != [] && IsAlnum(x[|x| - 1]);
    assert y != [] && IsAlnum(y[0]);
    TrimAround(x, m, y, IsTrimChar);
  }

  lemma SplitWordsBeforeRun(u: string, c: string)
    requires u != [] && IsAlnum(u[|u| - 1])
    requires c != [] && All(c, IsNotAlnum)
    ensures SplitWords(u + c) == SplitWords(u) + c
    ensures (u + c)[|u + c| - 1] == c[|c| - 1]
  {
    SplitWordsAppend(u, c);
    SplitWordsOther(c);
  }

  lemma SplitWordsAfterRun(uc: string, v: string)
    requires uc != [] && !IsAlnum(uc[|uc| - 1])
    requires v != [] && IsAlnum(v[0])
    ensures SplitWords(uc + v) == SplitWords(uc) + SplitWords(v)
  {
    SplitWordsAppend(uc, v);
  }

  /** The four patterns leave a run of other characters between two words in place. */
  lemma SplitWordsAroundRun(u: string, c: string, v: string)
    requires u != [] && v != [] && IsAlnum(u[|u| - 1]) && IsAlnum(v[0])
    requires c != [] && All(c, IsNotAlnum)
    ensures SplitWords(u + c + v) == SplitWords(u) + (c + SplitWords(v))
  {
    SplitWordsBeforeRun(u, c);
    SplitWordsAfterRun(u + c, v);
    AppendAfter(SplitWords(u), c, SplitWords(v));
  }

  /** Rewriting runs around a run of other characters between two words. */
  lemma ReplaceRunsAroundRun(a: string, c: string, b: string)
    requires a != [] && b != [] && IsAlnum(a[|a| - 1]) && IsAlnum(b[0])
    requires c != [] && All(c, IsNotAlnum)
    ensures ReplaceRuns(a + (c + b), IsNotAlnum, " ")
         == ReplaceRuns(a, IsNotAlnum, " ") + " " + ReplaceRuns(b, IsNotAlnum, " ")
  {
    ReplaceRunsAppend(a, c + b, IsNotAlnum, " ");
    ReplaceRunsAppend(c, b, IsNotAlnum, " ");
    ReplaceRunsWhole(c, IsNotAlnum, " ");
    AppendAfter(ReplaceRuns(a, IsNotAlnum, " "), " ", ReplaceRuns(b, IsNotAlnum, " "));
  }

  /** Rewriting runs and trimming around a run of other characters between two words. */
  lemma TrimAroundRun(a: string, c: string, b: string)
    requires a != [] && b != [] && IsAlnum(a[|a| - 1]) && IsAlnum(b[0])
    requires c != [] && All(c, IsNotAlnum)
    ensures Trim(ReplaceRuns(a + (c + b), IsNotAlnum, " "))
         == Trim(ReplaceRuns(a, IsNotAlnum, " ")) + " " + Trim(ReplaceRuns(b, IsNotAlnum, " "))
  {
    ReplaceRunsAroundRun(a, c, b);
    TokenizeAround(a, " ", b);
  }

  /** A run of characters other than letters and digits between two words
      becomes exactly one space, and either side is tokenized on its own. */
  lemma TokenizeSeparatorRun(u: string, c: string, v: string)
    requires u != [] && v != [] && IsAlnum(u[|u| - 1]) && IsAlnum(v[0])
    requires c != [] && All(c, IsNotAlnum)
    ensures Tokenize(u + c + v) == Tokenize(u) + " " + Tokenize(v)
  {
    SplitWordsAroundRun(u, c, v);
    SplitWordsEnds(u);
    SplitWordsEnds(v);
    TrimAroundRun(SplitWords(u), c, SplitWords(v));
  }

  /** Between two lower-case letters or two digits no word boundary is
      invented: the word text of the whole is the two word texts put together. */
  lemma TokenizeJoins(u: string, v: string)
    requires u != [] && v != [] && IsAlnum(u[|u| - 1]) && IsAlnum(v[0])
    requires Joinable(u[|u| - 1], v[0])
    ensures Tokenize(u + v) == Tokenize(u) + Tokenize(v)
  {
    SplitWordsAppend(u, v);
    var a, b := SplitWords(u), SplitWords(v);
    SplitWordsEnds(u);
    SplitWordsEnds(v);
    ReplaceRunsAppend(a, b, IsNotAlnum, " ");
    TokenizeAround(a, [], b);
    assert ReplaceRuns(a, IsNotAlnum, " ") + [] == ReplaceRuns(a, IsNotAlnum, " ");
    assert Tokenize(u) + [] == Tokenize(u);
  }

  /** A spacing pass that matches right at the cut puts its space there; the
      characters on either side are not taken by another match. */
  lemma {:induction false} SpaceBetweenAtCut(u: string, w: string, a: char -> bool, b: char -> bool)
    requires u != [] && w != []
    requires a(u[|u| - 1]) && b(w[0]) && !b(u[|u| - 1]) && !a(w[0])
    ensures SpaceBetween(u + w, a, b) == SpaceBetween(u, a, b) + ([' '] + SpaceBetween(w, a, b))
    decreases |u|
  {
    var uw := u + w;
    if |u| == 1 {
      assert uw[0] == u[0] && uw[1] == w[0] && uw[2..] == w[1..];
      if |w| >= 2 {
        assert SpaceBetween(w, a, b) == [w[0]] + SpaceBetween(w[1..], a, b);
      }
    } else if a(u[0]) && b(u[1]) {
      assert uw[0] == u[0] && uw[1] == u[1] && uw[2..] == u[2..] + w;
      assert u[2..] != [] && u[2..][|u[2..]| - 1] == u[|u| - 1];
      SpaceBetweenAtCut(u[2..], w, a, b);
      AppendAfter([u[0], ' ', u[1]], SpaceBetween(u[2..], a, b), [' '] + SpaceBetween(w, a, b));
    } else {
      assert uw[0] == u[0] && uw[1] == u[1] && uw[1..] == u[1..] + w;
      assert u[1..][|u[1..]| - 1] == u[|u| - 1];
      SpaceBetweenAtCut(u[1..], w, a, b);
      AppendAfter([u[0]], SpaceBetween(u[1..], a, b), [' '] + SpaceBetween(w, a, b));
    }
  }

  /** A spacing pass across a space already there. */
  lemma SpaceBetweenSpaced(u: string, w: string, a: char -> bool, b: char -> bool)
    requires !a(' ') && !b(' ')
    ensures SpaceBetween(u + ([' '] + w), a, b) == SpaceBetween(u, a, b) + ([' '] + SpaceBetween(w, a, b))
  {
    SpaceBetweenAppend(u, [' '] + w, a, b);
    if |w| >= 1 {
      assert ([' '] + w)[1..] == w;
    }
  }

  /** The acronym pass across a space already there. */
  lemma SplitAcronymsSpaced(u: string, w: string)
    ensures SplitAcronyms(u + ([' '] + w)) == SplitAcronyms(u) + ([' '] + SplitAcronyms(w))
  {
    SplitAcronymsAppend(u, [' '] + w);
    SplitAcronymsStep([' '] + w);
    assert ([' '] + w)[1..] == w;
  }

  /** The two digit passes across a space already there. */
  lemma DigitPassesSpaced(u: string, w: string)
    ensures SpaceBetween(SpaceBetween(u + ([' '] + w), IsLetter, IsDigit), IsDigit, IsLetter)
         == SpaceBetween(SpaceBetween(u, IsLetter, IsDigit), IsDigit, IsLetter)
          + ([' '] + SpaceBetween(SpaceBetween(w, IsLetter, IsDigit), IsDigit, IsLetter))
  {
    SpaceBetweenSpaced(u, w, IsLetter, IsDigit);
    SpaceBetweenSpaced(SpaceBetween(u, IsLetter, IsDigit), SpaceBetween(w, IsLetter, IsDigit), IsDigit, IsLetter);
  }

  /** The last three passes across a space already there. */
  lemma LaterPassesSpaced(u: string, w: string)
    ensures SpaceBetween(SpaceBetween(SplitAcronyms(u + ([' '] + w)), IsLetter, IsDigit), IsDigit, IsLetter)
         == SpaceBetween(SpaceBetween(SplitAcronyms(u), IsLetter, IsDigit), IsDigit, IsLetter)
          + ([' '] + SpaceBetween(SpaceBetween(SplitAcronyms(w), IsLetter, IsDigit), IsDigit, IsLetter))
  {
    SplitAcronymsSpaced(u, w);
    DigitPassesSpaced(SplitAcronyms(u), SplitAcronyms(w));
  }

  /** The two digit passes at a letter-digit cut. */
  lemma DigitPassesLetterDigit(u: string, w: string)
    requires u != [] && w != [] && IsLetter(u[|u| - 1]) && IsDigit(w[0])
    ensures SpaceBetween(SpaceBetween(u + w, IsLetter, IsDigit), IsDigit, IsLetter)
         == SpaceBetween(SpaceBetween(u, IsLetter, IsDigit), IsDigit, IsLetter)
          + ([' '] + SpaceBetween(SpaceBetween(w, IsLetter, IsDigit), IsDigit, IsLetter))
  {
    SpaceBetweenAtCut(u, w, IsLetter, IsDigit);
    SpaceBetweenSpaced(SpaceBetween(u, IsLetter, IsDigit), SpaceBetween(w, IsLetter, IsDigit), IsDigit, IsLetter);
  }

  /** The two digit passes at a digit-letter cut. */
  lemma DigitPassesDigitLetter(u: string, w: string)
    requires u != [] && w != [] && IsDigit(u[|u| - 1]) && IsLetter(w[0])
    ensures SpaceBetween(SpaceBetween(u + w, IsLetter, IsDigit), IsDigit, IsLetter)
         == SpaceBetween(SpaceBetween(u, IsLetter, IsDigit), IsDigit, IsLetter)
          + ([' '] + SpaceBetween(SpaceBetween(w, IsLetter, IsDigit), IsDigit, IsLetter))
  {
    SpaceBetweenAcross(u, w, IsLetter, IsDigit);
    SpaceBetweenAtCut(SpaceBetween(u, IsLetter, IsDigit), SpaceBetween(w, IsLetter, IsDigit), IsDigit, IsLetter);
  }

  /** The last three passes at a letter-digit or digit-letter cut. */
  lemma LaterPassesAtDigit(u: string, w: string)
    requires u != [] && w != [] && IsAlnum(u[|u| - 1]) && IsAlnum(w[0])
    requires IsDigit(u[|u| - 1]) != IsDigit(w[0])
    ensures SpaceBetween(SpaceBetween(SplitAcronyms(u + w), IsLetter, IsDigit), IsDigit, IsLetter)
         == SpaceBetween(SpaceBetween(SplitAcronyms(u), IsLetter, IsDigit), IsDigit, IsLetter)
          + ([' '] + SpaceBetween(SpaceBetween(SplitAcronyms(w), IsLetter, IsDigit), IsDigit, IsLetter))
  {
    SplitAcronymsAcross(u, w);
    if IsDigit(w[0]) {
      DigitPassesLetterDigit(SplitAcronyms(u), SplitAcronyms(w));
    } else {
      DigitPassesDigitLetter(SplitAcronyms(u), SplitAcronyms(w));
    }
  }

  /** Where the patterns put a boundary between two neighbours: a capital
      after a lower-case letter, a digit after a letter, a letter after a digit. */
  predicate WordBoundary(x: char, y: char)
  {
    (IsLower(x) && IsUpper(y)) || (IsLetter(x) && IsDigit(y)) || (IsDigit(x) && IsLetter(y))
  }

  /** At such a cut the four patterns put one space and work on the halves apart. */
  lemma SplitWordsAtBoundary(u: string, v: string)
    requires u != [] && v != [] && WordBoundary(u[|u| - 1], v[0])
    ensures SplitWords(u + v) == SplitWords(u) + ([' '] + SplitWords(v))
  {
    if IsLower(u[|u| - 1]) && IsUpper(v[0]) {
      SpaceBetweenAtCut(u, v, IsLower, IsUpper);
      LaterPassesSpaced(SpaceBetween(u, IsLower, IsUpper), SpaceBetween(v, IsLower, IsUpper));
    } else {
      SpaceBetweenAcross(u, v, IsLower, IsUpper);
      LaterPassesAtDigit(SpaceBetween(u, IsLower, IsUpper), SpaceBetween(v, IsLower, IsUpper));
    }
  }

  /** A capital after a lower-case letter, a digit after a letter and a letter
      after a digit each open a new word: the word text of the whole is the two
      word texts with one space between them. */
  lemma TokenizeAtBoundary(u: string, v: string)
    requires u != [] && v != [] && WordBoundary(u[|u| - 1], v[0])
    ensures Tokenize(u + v) == Tokenize(u) + " " + Tokenize(v)
  {
    SplitWordsAtBoundary(u, v);
    SplitWordsEnds(u);
    SplitWordsEnds(v);
    TrimAroundRun(SplitWords(u), " ", SplitWords(v));
  }

  // ---------------------------------------------------------------------------
  // What the recombiner does
  // ---------------------------------------------------------------------------

  predicate IsNotLower(c: char) { !IsLower(c) }
  predicate IsNotUpper(c: char) { !IsUpper(c) }

  /** Casing keeps every character's lower-case form. */
  lemma WordedLower(t: string, convention: int)
    ensures Lower(Worded(t, convention)) == Lower(t)
  {
    var w := Worded(t, convention);
    forall i | 0 <= i < |t| ensures ToLower(w[i]) == ToLower(t[i]) {
      CaseFolds(t[i]);
      CaseFolds(ToUpper(t[i]));
      CaseFolds(ToLower(t[i]));
    }
  }

  lemma LcFirstLower(s: string)
    ensures Lower(LcFirst(s)) == Lower(s)
  {
    if s != [] {
      CaseFolds(s[0]);
      assert Lower(LcFirst(s))[0] == Lower(s)[0];
    }
  }

  /** Joining words keeps their letters and digits, in order, up to case. */
  lemma RecombineContent(t: string, convention: int)
    ensures Lower(Keep(Recombine(t, convention), IsAlnum)) == Lower(Keep(t, IsAlnum))
  {
    var w := Worded(t, convention);
    var joined := ReplaceChar(w, ' ', Separator(convention));
    var r := Recombine(t, convention);
    assert Lower(r) == Lower(joined) by {
      if HasBit(convention, LCFIRST) {
        LcFirstLower(joined);
      }
    }
    assert Keep(joined, IsAlnum) == Keep(w, IsAlnum) by {
      assert Keep(Separator(convention), IsAlnum) == [];
      ReplaceCharKeep(w, ' ', Separator(convention), IsAlnum);
    }
    calc {
      Lower(Keep(r, IsAlnum));
      { LowerKeep(r); }
      Keep(Lower(joined), IsAlnum);
      { LowerKeep(joined); }
      Lower(Keep(w, IsAlnum));
      { LowerKeep(w); }
      Keep(Lower(w), IsAlnum);
      { WordedLower(t, convention); LowerKeep(t); }
      Lower(Keep(t, IsAlnum));
    }
  }

  /** The letters and digits of the result are those of the input, in order,
      up to case. */
  lemma ConvertCaseContent(s: string, convention: int)
    ensures Lower(Keep(ConvertCase(s, convention), IsAlnum)) == Lower(Keep(s, IsAlnum))
  {
    TokenizeShape(s);
    RecombineContent(Tokenize(s), convention);
  }

  /** What casing does to each character of the word text. */
  lemma WordedClasses(t: string, convention: int)
    ensures forall i :: 0 <= i < |t| ==> IsAlnum(Worded(t, convention)[i]) == IsAlnum(t[i])
    ensures forall i :: 0 <= i < |t| ==> (Worded(t, convention)[i] == ' ') == (t[i] == ' ')
    ensures HasBit(convention, UPPER) ==> All(Worded(t, convention), IsNotLower)
    ensures !HasBit(convention, UPPER) && !HasBit(convention, UCWORDS) ==> All(Worded(t, convention), IsNotUpper)
  {
    var w := Worded(t, convention);
    forall i | 0 <= i < |t|
      ensures IsAlnum(w[i]) == IsAlnum(t[i]) && (w[i] == ' ') == (t[i] == ' ')
      ensures HasBit(convention, UPPER) ==> !IsLower(w[i])
      ensures !HasBit(convention, UPPER) && !HasBit(convention, UCWORDS) ==> !IsUpper(w[i])
    {
      CaseFolds(t[i]);
      CaseFolds(ToUpper(t[i]));
      CaseFolds(ToLower(t[i]));
    }
  }

  /** Joining replaces only spaces, and `lcfirst` changes at most the first character. */
  lemma RecombineFrom(t: string, convention: int, q: char -> bool)
    requires forall i :: 0 <= i < |t| && Worded(t, convention)[i] != ' ' ==> q(Worded(t, convention)[i])
    requires All(Separator(convention), q)
    requires HasBit(convention, LCFIRST) ==> forall c :: q(c) ==> q(ToLower(c))
    ensures All(Recombine(t, convention), q)
  {
    var joined := ReplaceChar(Worded(t, convention), ' ', Separator(convention));
    ReplaceCharAll(Worded(t, convention), ' ', Separator(convention), q);
    if HasBit(convention, LCFIRST) && joined != [] {
      assert forall i :: 1 <= i < |joined| ==> LcFirst(joined)[i] == joined[i];
    }
  }

  /** Upper-case conventions without `lcfirst` leave no lower-case letter;
      lower-case conventions without `ucwords` leave no capital; `lcfirst`
      leaves no capital in front; the separator is the only other character. */
  lemma RecombineLetters(t: string, convention: int)
    requires All(t, IsTokenChar)
    ensures HasBit(convention, UPPER) && !HasBit(convention, LCFIRST) ==> All(Recombine(t, convention), IsNotLower)
    ensures !HasBit(convention, UPPER) && !HasBit(convention, UCWORDS) ==> All(Recombine(t, convention), IsNotUpper)
    ensures HasBit(convention, LCFIRST) && Recombine(t, convention) != [] ==> !IsUpper(Recombine(t, convention)[0])
    ensures forall i :: 0 <= i < |Recombine(t, convention)| ==>
      IsAlnum(Recombine(t, convention)[i]) || [Recombine(t, convention)[i]] == Separator(convention)
  {
    var w := Worded(t, convention);
    var sep := Separator(convention);
    WordedClasses(t, convention);
    if HasBit(convention, UPPER) && !HasBit(convention, LCFIRST) {
      RecombineFrom(t, convention, IsNotLower);
    }
    if !HasBit(convention, UPPER) && !HasBit(convention, UCWORDS) {
      forall c | IsNotUpper(c) ensures IsNotUpper(ToLower(c)) {
        CaseFolds(c);
      }
      RecombineFrom(t, convention, IsNotUpper);
    }
    if HasBit(convention, LCFIRST) && Recombine(t, convention) != [] {
      CaseFolds(ReplaceChar(w, ' ', sep)[0]);
    }
    var q := (c: char) => IsAlnum(c) || [c] == sep;
    forall c | q(c) ensures q(ToLower(c)) {
      CaseFolds(c);
    }
    assert forall i :: 0 <= i < |w| && w[i] != ' ' ==> q(w[i]) by {
      forall i | 0 <= i < |w| && w[i] != ' ' ensures q(w[i]) {
        assert IsTokenChar(t[i]);
      }
    }
    RecombineFrom(t, convention, q);
  }

  lemma ConvertCaseLetters(s: string, convention: int)
    ensures HasBit(convention, UPPER) && !HasBit(convention, LCFIRST) ==> All(ConvertCase(s, convention), IsNotLower)
    ensures !HasBit(convention, UPPER) && !HasBit(convention, UCWORDS) ==> All(ConvertCase(s, convention), IsNotUpper)
    ensures HasBit(convention, LCFIRST) && ConvertCase(s, convention) != [] ==> !IsUpper(ConvertCase(s, convention)[0])
    ensures forall i :: 0 <= i < |ConvertCase(s, convention)| ==>
      IsAlnum(ConvertCase(s, convention)[i]) || [ConvertCase(s, convention)[i]] == Separator(convention)
  {
    TokenizeShape(s);
    RecombineLetters(Tokenize(s), convention);
  }

  // ---------------------------------------------------------------------------
  // Converting between conventions
  // ---------------------------------------------------------------------------

  /** Character `i` of the words `t` written in a convention with a separator. */
  function JoinedChar(t: string, i: nat, convention: int): char
    requires i < |t| && HasBit(convention, SEPARATED)
  {
    if t[i] == ' ' then Separator(convention)[0]
    else if HasBit(convention, LCFIRST) && i == 0 then ToLower(WordChar(t, i, convention))
    else WordChar(t, i, convention)
  }

  /** With a separator, every space becomes the separator and every other
      character is cased in place. */
  lemma RecombineSeparated(t: string, convention: int)
    requires HasBit(convention, SEPARATED)
    ensures |Recombine(t, convention)| == |t|
    ensures forall i :: 0 <= i < |t| ==> Recombine(t, convention)[i] == JoinedChar(t, i, convention)
  {
    var w := Worded(t, convention);
    var sep := Separator(convention);
    ReplaceCharShape(w, ' ', sep);
    WordedClasses(t, convention);
  }

  /** Without a separator, the words are cased and run together: every space
      is deleted, and lcfirst lower-cases the first character. */
  lemma RecombineJoined(t: string, convention: int)
    requires !HasBit(convention, SEPARATED)
    ensures var joined := Keep(Worded(t, convention), IsOther(' '));
      Recombine(t, convention) == if HasBit(convention, LCFIRST) then LcFirst(joined) else joined
  {
    ReplaceCharShape(Worded(t, convention), ' ', Separator(convention));
  }

  /** How casing and joining treat one character of the word text. */
  lemma JoinedCharClasses(t: string, i: nat, convention: int)
    requires i < |t| && HasBit(convention, SEPARATED) && IsTokenChar(t[i])
    requires 0 < i ==> IsTokenChar(t[i - 1])
    ensures var c := JoinedChar(t, i, convention);
      && IsAlnum(c) == IsAlnum(t[i]) && IsLetter(c) == IsLetter(t[i]) && IsDigit(c) == IsDigit(t[i])
      && (IsAlnum(c) || IsSeparator(c))
      && (t[i] != ' ' ==> ToLower(c) == ToLower(t[i]))
      && (IsUpper(c) && !HasBit(convention, UPPER) ==> i == 0 || t[i - 1] == ' ')
      && (IsLower(c) && HasBit(convention, UPPER) ==> i == 0 && HasBit(convention, LCFIRST))
  {
    assert Separator(convention) == "_" || Separator(convention) == "-";
    CaseFolds(t[i]);
    CaseFolds(ToUpper(t[i]));
    CaseFolds(ToLower(t[i]));
    CaseFolds(WordChar(t, i, convention));
  }

  /** The characters `convertCase` can put between two words. */
  predicate IsSeparator(c: char) { c == '_' || c == '-' }

  /** Text written in a convention with a separator, as the tokenizer sees it:
      letters, digits and separators, no two separators in a row and none at
      either end, and no case or letter/digit boundary inside a word. */
  predicate SeparatedForm(r: string)
  {
    && (forall i :: 0 <= i < |r| ==> IsAlnum(r[i]) || IsSeparator(r[i]))
    && NotAtEnds(r, IsNotAlnum)
    && NoAdjacent(r, IsNotAlnum, IsNotAlnum)
    && NoAdjacent(r, IsLower, IsUpper)
    && NoAcronymBoundary(r)
    && NoAdjacent(r, IsLetter, IsDigit)
    && NoAdjacent(r, IsDigit, IsLetter)
  }

  /** Such text has no boundary left for the four patterns to split. */
  lemma SplitWordsSeparated(r: string)
    requires SeparatedForm(r)
    ensures SplitWords(r) == r
  {
    SplitWordsNone(r);
  }

  /** Its separators stand alone, so each becomes one space. */
  lemma SeparatedRuns(r: string)
    requires SeparatedForm(r)
    ensures ReplaceRuns(r, IsNotAlnum, " ") == ReplaceEach(r, IsNotAlnum, ' ')
  {
    ReplaceRunsSingles(r, IsNotAlnum, ' ');
  }

  /** Its ends are letters or digits, so there is nothing to trim. */
  lemma SeparatedEnds(r: string)
    requires SeparatedForm(r)
    ensures NotAtEnds(ReplaceEach(r, IsNotAlnum, ' '), IsTrimChar)
  {
    var u := ReplaceEach(r, IsNotAlnum, ' ');
    if u != [] {
      assert u[0] == r[0] && u[|u| - 1] == r[|r| - 1];
    }
  }

  /** Such text tokenizes to itself with its separators turned into spaces. */
  lemma TokenizeSeparated(r: string)
    requires SeparatedForm(r)
    ensures Tokenize(r) == ReplaceEach(r, IsNotAlnum, ' ')
  {
    SplitWordsSeparated(r);
    SeparatedRuns(r);
    SeparatedEnds(r);
    TrimNone(ReplaceEach(r, IsNotAlnum, ' '), IsTrimChar);
  }

  /** The classes of the characters of the word text written with a separator. */
  lemma RecombineClasses(t: string, convention: int)
    requires Tokenized(t) && HasBit(convention, SEPARATED)
    ensures |Recombine(t, convention)| == |t|
    ensures forall i :: 0 <= i < |t| ==>
      && IsAlnum(Recombine(t, convention)[i]) == IsAlnum(t[i])
      && IsLetter(Recombine(t, convention)[i]) == IsLetter(t[i])
      && IsDigit(Recombine(t, convention)[i]) == IsDigit(t[i])
      && (IsAlnum(Recombine(t, convention)[i]) || IsSeparator(Recombine(t, convention)[i]))
      && (t[i] != ' ' ==> ToLower(Recombine(t, convention)[i]) == ToLower(t[i]))
      && (IsUpper(Recombine(t, convention)[i]) && !HasBit(convention, UPPER) ==> i == 0 || t[i - 1] == ' ')
      && (IsLower(Recombine(t, convention)[i]) && HasBit(convention, UPPER) ==> i == 0 && HasBit(convention, LCFIRST))
  {
    var r := Recombine(t, convention);
    RecombineSeparated(t, convention);
    forall i | 0 <= i < |t|
      ensures IsAlnum(r[i]) == IsAlnum(t[i]) && IsLetter(r[i]) == IsLetter(t[i]) && IsDigit(r[i]) == IsDigit(t[i])
      ensures IsAlnum(r[i]) || IsSeparator(r[i])
      ensures t[i] != ' ' ==> ToLower(r[i]) == ToLower(t[i])
      ensures IsUpper(r[i]) && !HasBit(convention, UPPER) ==> i == 0 || t[i - 1] == ' '
      ensures IsLower(r[i]) && HasBit(convention, UPPER) ==> i == 0 && HasBit(convention, LCFIRST)
    {
      assert IsTokenChar(t[i]);
      if 0 < i {
        assert IsTokenChar(t[i - 1]);
      }
      JoinedCharClasses(t, i, convention);
    }
  }

  /** The capitals a separated convention writes start words, so no case boundary remains. */
  lemma RecombineCaseBoundaries(t: string, convention: int)
    requires Tokenized(t)
    requires HasBit(convention, SEPARATED) && !(HasBit(convention, UPPER) && HasBit(convention, LCFIRST))
    ensures NoAdjacent(Recombine(t, convention), IsLower, IsUpper)
    ensures NoAcronymBoundary(Recombine(t, convention))
  {
    var r := Recombine(t, convention);
    RecombineClasses(t, convention);
    assert NoAdjacent(r, IsLower, IsUpper) by {
      forall i | 0 <= i < |r| - 1 ensures !(IsLower(r[i]) && IsUpper(r[i + 1])) {
        if IsUpper(r[i + 1]) && !HasBit(convention, UPPER) {
          assert t[i] == ' ';
        }
      }
    }
    assert NoAcronymBoundary(r) by {
      forall i | 0 <= i < |r| - 2 ensures !(IsUpper(r[i]) && IsUpper(r[i + 1]) && IsLower(r[i + 2])) {
        if IsUpper(r[i + 1]) && !HasBit(convention, UPPER) {
          assert t[i] == ' ';
        }
      }
    }
  }

  /** Separators stand alone and letters and digits stay apart. */
  lemma RecombineClassBoundaries(t: string, convention: int)
    requires Tokenized(t) && HasBit(convention, SEPARATED)
    ensures NotAtEnds(Recombine(t, convention), IsNotAlnum)
    ensures NoAdjacent(Recombine(t, convention), IsNotAlnum, IsNotAlnum)
    ensures NoAdjacent(Recombine(t, convention), IsLetter, IsDigit)
    ensures NoAdjacent(Recombine(t, convention), IsDigit, IsLetter)
  {
    var r := Recombine(t, convention);
    RecombineClasses(t, convention);
    assert NoAdjacent(r, IsNotAlnum, IsNotAlnum) by {
      forall i | 0 <= i < |r| - 1 ensures !(IsNotAlnum(r[i]) && IsNotAlnum(r[i + 1])) {
        assert !(t[i] == ' ' && t[i + 1] == ' ');
      }
    }
    assert NoAdjacent(r, IsLetter, IsDigit) by {
      forall i | 0 <= i < |r| - 1 ensures !(IsLetter(r[i]) && IsDigit(r[i + 1])) {
        assert !(IsLetter(t[i]) && IsDigit(t[i + 1]));
      }
    }
    assert NoAdjacent(r, IsDigit, IsLetter) by {
      forall i | 0 <= i < |r| - 1 ensures !(IsDigit(r[i]) && IsLetter(r[i + 1])) {
        assert !(IsDigit(t[i]) && IsLetter(t[i + 1]));
      }
    }
  }

  /** The word text written with a separator, unless both `UPPER` and
      `LCFIRST` are set, is in separated form. */
  lemma RecombineSeparatedForm(t: string, convention: int)
    requires Tokenized(t)
    requires HasBit(convention, SEPARATED) && !(HasBit(convention, UPPER) && HasBit(convention, LCFIRST))
    ensures SeparatedForm(Recombine(t, convention))
  {
    RecombineClasses(t, convention);
    RecombineCaseBoundaries(t, convention);
    RecombineClassBoundaries(t, convention);
  }

  /** Reading the separators back as spaces gives the word text up to case. */
  lemma RecombineWords(t: string, convention: int)
    requires Tokenized(t) && HasBit(convention, SEPARATED)
    ensures Lower(ReplaceEach(Recombine(t, convention), IsNotAlnum, ' ')) == Lower(t)
  {
    var r := Recombine(t, convention);
    var u := ReplaceEach(r, IsNotAlnum, ' ');
    RecombineClasses(t, convention);
    forall i | 0 <= i < |t| ensures Lower(u)[i] == Lower(t)[i] {
      assert IsTokenChar(t[i]);
    }
  }

  /** The recombiner reads its word text only up to case. */
  lemma RecombineCaseBlind(u: string, t: string, convention: int)
    requires Lower(u) == Lower(t)
    ensures Recombine(u, convention) == Recombine(t, convention)
  {
    assert |u| == |Lower(u)|;
    forall i | 0 <= i < |t| ensures WordChar(u, i, convention) == WordChar(t, i, convention) {
      assert ToLower(u[i]) == ToLower(t[i]);
      CaseFolds(u[i]);
      CaseFolds(t[i]);
      if i > 0 {
        assert ToLower(u[i - 1]) == ToLower(t[i - 1]);
        assert IsWordDelimiter(u[i - 1]) == IsWordDelimiter(t[i - 1]);
      }
    }
    assert Worded(u, convention) == Worded(t, convention);
  }

  /** Converting a result written with a separator (snake or kebab case, upper
      or lower) to any convention gives what converting the original gives. */
  lemma ConvertCaseThroughSeparated(s: string, a: int, b: int)
    requires HasBit(a, SEPARATED) && !(HasBit(a, UPPER) && HasBit(a, LCFIRST))
    ensures ConvertCase(ConvertCase(s, a), b) == ConvertCase(s, b)
  {
    var t := Tokenize(s);
    var r := Recombine(t, a);
    TokenizeShape(s);
    RecombineSeparatedForm(t, a);
    RecombineWords(t, a);
    TokenizeSeparated(r);
    RecombineCaseBlind(Tokenize(r), t, b);
  }

  /** Converting a string that is already in a separated convention to that
      same convention changes nothing. */
  lemma ConvertCaseIdempotent(s: string, convention: int)
    requires HasBit(convention, SEPARATED) && !(HasBit(convention, UPPER) && HasBit(convention, LCFIRST))
    ensures ConvertCase(ConvertCase(s, convention), convention) == ConvertCase(s, convention)
  {
    ConvertCaseThroughSeparated(s, convention, convention);
  }
}
