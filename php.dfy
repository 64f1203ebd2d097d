/** The PHP built-ins the toolkit is composed of, on text as a sequence of Unicode
    scalar values (Dafny's `string`): the `preg_replace` shapes used with a single
    character class, `trim`, `str_replace` with a one-character needle, the ASCII
    case functions, bit tests on an integer option mask and `str_repeat`. */
module Php {

  /** A value, or PHP's `false`/the error a built-in raises instead of one. */
  datatype Option<T> = None | Some(value: T)

  // ---------------------------------------------------------------------------
  // ASCII character classes (`[a-z]`, `[A-Z]`, `[0-9]`; `strtoupper`/`strtolower`
  // only touch these since PHP 8.2 and in the C locale before it).
  // ---------------------------------------------------------------------------

  predicate IsUpper(c: char) { 'A' <= c <= 'Z' }
  predicate IsLower(c: char) { 'a' <= c <= 'z' }
  predicate IsLetter(c: char) { IsUpper(c) || IsLower(c) }
  predicate IsDigit(c: char) { '0' <= c <= '9' }
  predicate IsAlnum(c: char) { IsLetter(c) || IsDigit(c) }
  predicate IsNotAlnum(c: char) { !IsAlnum(c) }
  predicate IsAscii(c: char) { c as int < 0x80 }

  /** The class made of the one character `x`. */
  function Is(x: char): char -> bool { c => c == x }

  function ToUpper(c: char): char { if IsLower(c) then (c as int - 32) as char else c }
  function ToLower(c: char): char { if IsUpper(c) then (c as int + 32) as char else c }

  /** Both case functions forget the case they were given. */
  lemma CaseFolds(c: char)
    ensures ToUpper(ToLower(c)) == ToUpper(c) && ToLower(ToUpper(c)) == ToLower(c)
    ensures IsLetter(ToUpper(c)) == IsLetter(c) && IsLetter(ToLower(c)) == IsLetter(c)
    ensures IsDigit(ToUpper(c)) == IsDigit(c) && IsDigit(ToLower(c)) == IsDigit(c)
    ensures !IsLower(ToUpper(c)) && !IsUpper(ToLower(c))
  {
  }

  /** `$x & $mask` is non-zero, for a one-bit `$mask`.  Dafny's division rounds
      down for a positive divisor, so this is the two's-complement bit also for
      negative `$x`. */
  predicate HasBit(x: int, mask: nat)
    requires mask > 0
  {
    (x / mask) % 2 == 1
  }

  /** Every character of `s` is in class `p`. */
  predicate All(s: string, p: char -> bool)
  {
    forall i :: 0 <= i < |s| ==> p(s[i])
  }

  /** No character of class `a` is immediately followed by one of class `b`. */
  predicate NoAdjacent(s: string, a: char -> bool, b: char -> bool)
  {
    forall i :: 0 <= i < |s| - 1 ==> !(a(s[i]) && b(s[i + 1]))
  }

  /** Neither the first nor the last character of `s` is in class `p`. */
  predicate NotAtEnds(s: string, p: char -> bool)
  {
    s == [] || (!p(s[0]) && !p(s[|s| - 1]))
  }

  lemma AllAppend(a: string, b: string, p: char -> bool)
    ensures All(a + b, p) <==> All(a, p) && All(b, p)
  {
    if All(a, p) && All(b, p) {
      forall i | 0 <= i < |a + b| ensures p((a + b)[i]) {
        if i >= |a| {
          assert (a + b)[i] == b[i - |a|];
        }
      }
    }
    if All(a + b, p) {
      forall i | 0 <= i < |a| ensures p(a[i]) {
        assert (a + b)[i] == a[i];
      }
      forall i | 0 <= i < |b| ensures p(b[i]) {
        assert (a + b)[|a| + i] == b[i];
      }
    }
  }

  lemma AllSlice(s: string, p: char -> bool, i: nat, j: nat)
    requires i <= j <= |s| && All(s, p)
    ensures All(s[i..j], p)
  {
  }

  lemma NoAdjacentSlice(s: string, a: char -> bool, b: char -> bool, i: nat, j: nat)
    requires i <= j <= |s| && NoAdjacent(s, a, b)
    ensures NoAdjacent(s[i..j], a, b)
  {
    forall k | 0 <= k < j - i - 1
      ensures !(a(s[i..j][k]) && b(s[i..j][k + 1]))
    {
      assert s[i..j][k] == s[i + k] && s[i..j][k + 1] == s[i + k + 1];
    }
  }

  // ---------------------------------------------------------------------------
  // Filtering and one-to-one rewriting
  // ---------------------------------------------------------------------------

  /** The characters of `s` that are in class `p`, in their order. */
  function Keep(s: string, p: char -> bool): (r: string)
    ensures |r| <= |s|
    ensures All(r, p)
  {
    if s == [] then [] else (if p(s[0]) then [s[0]] else []) + Keep(s[1..], p)
  }

  lemma {:induction false} KeepAppend(a: string, b: string, p: char -> bool)
    ensures Keep(a + b, p) == Keep(a, p) + Keep(b, p)
  {
    if a != [] {
      assert (a + b)[0] == a[0] && (a + b)[1..] == a[1..] + b;
      KeepAppend(a[1..], b, p);
      var h := if p(a[0]) then [a[0]] else [];
      calc {
        Keep(a + b, p);
        h + Keep(a[1..] + b, p);
        h + (Keep(a[1..], p) + Keep(b, p));
        (h + Keep(a[1..], p)) + Keep(b, p);
        Keep(a, p) + Keep(b, p);
      }
    } else {
      assert a + b == b;
    }
  }

  lemma {:induction false} KeepAll(s: string, p: char -> bool)
    ensures All(s, p) <==> Keep(s, p) == s
  {
    if s != [] {
      KeepAll(s[1..], p);
      if Keep(s, p) == s {
        assert |Keep(s[1..], p)| <= |s| - 1;
      }
    }
  }

  lemma {:induction false} KeepNone(s: string, p: char -> bool)
    requires forall i :: 0 <= i < |s| ==> !p(s[i])
    ensures Keep(s, p) == []
  {
    if s != [] {
      KeepNone(s[1..], p);
    }
  }

  /** A class that holds everywhere in `s` holds in what `Keep` keeps of it. */
  lemma {:induction false} KeepStaysIn(s: string, p: char -> bool, q: char -> bool)
    requires All(s, q)
    ensures All(Keep(s, p), q)
  {
    if s != [] {
      KeepStaysIn(s[1..], p, q);
      var r := Keep(s, p);
      var h := if p(s[0]) then [s[0]] else [];
      forall i | 0 <= i < |r| ensures q(r[i]) {
        if i >= |h| {
          assert r[i] == Keep(s[1..], p)[i - |h|];
        }
      }
    }
  }

  /** Keeping `p` and then the narrower `q` is keeping `q`. */
  lemma {:induction false} KeepKeep(s: string, p: char -> bool, q: char -> bool)
    requires forall c :: q(c) ==> p(c)
    ensures Keep(Keep(s, p), q) == Keep(s, q)
  {
    if s != [] {
      KeepKeep(s[1..], p, q);
      var h := if p(s[0]) then [s[0]] else [];
      KeepAppend(h, Keep(s[1..], p), q);
      assert Keep(h, q) == if q(s[0]) then [s[0]] else [] by {
        if p(s[0]) {
          assert [s[0]][1..] == [];
        }
      }
    }
  }

  /** Applies `f` to every character. */
  function MapChars(s: string, f: char -> char): (r: string)
    ensures |r| == |s|
    ensures forall i :: 0 <= i < |s| ==> r[i] == f(s[i])
  {
    if s == [] then [] else [f(s[0])] + MapChars(s[1..], f)
  }

  /** `strtoupper` and `strtolower`. */
  function Upper(s: string): string { MapChars(s, ToUpper) }
  function Lower(s: string): string { MapChars(s, ToLower) }

  /** `preg_replace('#[P]#u', x, s)` (no `+`): every character in class `p` becomes `x`. */
  function ReplaceEach(s: string, p: char -> bool, x: char): (r: string)
    ensures |r| == |s|
    ensures forall i :: 0 <= i < |s| ==> r[i] == (if p(s[i]) then x else s[i])
  {
    if s == [] then [] else [if p(s[0]) then x else s[0]] + ReplaceEach(s[1..], p, x)
  }

  /** `preg_replace_callback('#[P]#u', f, s)`: every character in class `p` is
      replaced by what `f` makes of it, the others are kept. */
  function ExpandEach(s: string, p: char -> bool, f: char -> string): string
  {
    if s == [] then [] else (if p(s[0]) then f(s[0]) else [s[0]]) + ExpandEach(s[1..], p, f)
  }

  lemma {:induction false} ExpandEachAppend(a: string, b: string, p: char -> bool, f: char -> string)
    ensures ExpandEach(a + b, p, f) == ExpandEach(a, p, f) + ExpandEach(b, p, f)
  {
    if a != [] {
      assert (a + b)[0] == a[0] && (a + b)[1..] == a[1..] + b;
      ExpandEachAppend(a[1..], b, p, f);
      var h := if p(a[0]) then f(a[0]) else [a[0]];
      calc {
        ExpandEach(a + b, p, f);
        h + ExpandEach(a[1..] + b, p, f);
        h + (ExpandEach(a[1..], p, f) + ExpandEach(b, p, f));
        (h + ExpandEach(a[1..], p, f)) + ExpandEach(b, p, f);
        ExpandEach(a, p, f) + ExpandEach(b, p, f);
      }
    } else {
      assert a + b == b;
    }
  }

  lemma ExpandEachSingle(c: char, p: char -> bool, f: char -> string)
    ensures ExpandEach([c], p, f) == if p(c) then f(c) else [c]
  {
    assert [c][1..] == [];
  }

  /** A character class `q` that holds of the kept characters and of every
      replacement holds of the whole result. */
  lemma {:induction false} ExpandEachAll(s: string, p: char -> bool, f: char -> string, q: char -> bool)
    requires forall i :: 0 <= i < |s| && !p(s[i]) ==> q(s[i])
    requires forall i :: 0 <= i < |s| && p(s[i]) ==> All(f(s[i]), q)
    ensures All(ExpandEach(s, p, f), q)
  {
    if s != [] {
      ExpandEachAll(s[1..], p, f, q);
      var head := if p(s[0]) then f(s[0]) else [s[0]];
      assert All(head, q);
      var r := ExpandEach(s, p, f);
      forall i | 0 <= i < |r| ensures q(r[i]) {
        if i >= |head| {
          assert r[i] == ExpandEach(s[1..], p, f)[i - |head|];
        }
      }
    }
  }

  lemma {:induction false} ExpandEachNone(s: string, p: char -> bool, f: char -> string)
    requires forall i :: 0 <= i < |s| ==> !p(s[i])
    ensures ExpandEach(s, p, f) == s
  {
    if s != [] {
      ExpandEachNone(s[1..], p, f);
    }
  }

  /** `str_replace($c, $rep, $s)` for a one-character needle `$c`. */
  function ReplaceChar(s: string, c: char, rep: string): string
  {
    if s == [] then [] else (if s[0] == c then rep else [s[0]]) + ReplaceChar(s[1..], c, rep)
  }

  /** With a one-character replacement it rewrites in place; with the empty one it deletes. */
  lemma {:induction false} ReplaceCharShape(s: string, c: char, rep: string)
    ensures |rep| == 1 ==> ReplaceChar(s, c, rep) == ReplaceEach(s, Is(c), rep[0])
    ensures rep == [] ==> ReplaceChar(s, c, rep) == Keep(s, IsOther(c))
  {
    if s != [] {
      ReplaceCharShape(s[1..], c, rep);
    }
  }

  function IsOther(x: char): char -> bool { c => c != x }

  /** Replacing a character outside `q` by characters outside `q` keeps the characters of `q`. */
  lemma {:induction false} ReplaceCharKeep(s: string, c: char, rep: string, q: char -> bool)
    requires !q(c) && Keep(rep, q) == []
    ensures Keep(ReplaceChar(s, c, rep), q) == Keep(s, q)
  {
    if s != [] {
      ReplaceCharKeep(s[1..], c, rep, q);
      var h := if s[0] == c then rep else [s[0]];
      KeepAppend(h, ReplaceChar(s[1..], c, rep), q);
    }
  }

  lemma {:induction false} ReplaceCharAll(s: string, c: char, rep: string, q: char -> bool)
    requires forall i :: 0 <= i < |s| && s[i] != c ==> q(s[i])
    requires All(rep, q)
    ensures All(ReplaceChar(s, c, rep), q)
  {
    if s != [] {
      ReplaceCharAll(s[1..], c, rep, q);
      var h := if s[0] == c then rep else [s[0]];
      var r := ReplaceChar(s, c, rep);
      forall i | 0 <= i < |r| ensures q(r[i]) {
        if i >= |h| {
          assert r[i] == ReplaceChar(s[1..], c, rep)[i - |h|];
        }
      }
    }
  }

  /** Lower-casing commutes with keeping the letters and digits. */
  lemma {:induction false} LowerKeep(s: string)
    ensures Lower(Keep(s, IsAlnum)) == Keep(Lower(s), IsAlnum)
  {
    if s != [] {
      LowerKeep(s[1..]);
      CaseFolds(s[0]);
      assert Lower(s) == [ToLower(s[0])] + Lower(s[1..]);
    }
  }

  // ---------------------------------------------------------------------------
  // Runs: `preg_replace('#[P]+#u', r, s)`
  // ---------------------------------------------------------------------------

  /** Length of the longest prefix of `s` inside class `p`. */
  function RunLength(s: string, p: char -> bool): (n: nat)
    ensures n <= |s|
    ensures forall i :: 0 <= i < n ==> p(s[i])
    ensures n < |s| ==> !p(s[n])
  {
    if s == [] || !p(s[0]) then 0 else 1 + RunLength(s[1..], p)
  }

  /** `preg_replace('#[P]+#u', r, s)`: every maximal run of characters of class
      `p` is replaced by `r`; the scan resumes after the run. */
  function ReplaceRuns(s: string, p: char -> bool, r: string): string
    decreases |s|
  {
    if s == [] then []
    else if p(s[0]) then r + ReplaceRuns(s[RunLength(s, p)..], p, r)
    else [s[0]] + ReplaceRuns(s[1..], p, r)
  }

  /** `preg_replace('#x{2,}#', x, s)`: repeated `x` collapse to one.  A run of a
      single `x` is its own replacement, so this is the run rewrite for `x`. */
  function Squeeze(s: string, x: char): string
  {
    ReplaceRuns(s, Is(x), [x])
  }

  /** Deleting the runs of `p` keeps exactly the characters outside `p`. */
  lemma {:induction false} ReplaceRunsDelete(s: string, p: char -> bool, q: char -> bool)
    requires forall i :: 0 <= i < |s| ==> (q(s[i]) <==> !p(s[i]))
    ensures ReplaceRuns(s, p, []) == Keep(s, q)
    decreases |s|
  {
    if s != [] {
      if p(s[0]) {
        var n := RunLength(s, p);
        ReplaceRunsDelete(s[n..], p, q);
        KeepRunGone(s, p, q, n);
      } else {
        ReplaceRunsDelete(s[1..], p, q);
      }
    }
  }

  lemma {:induction false} KeepRunGone(s: string, p: char -> bool, q: char -> bool, n: nat)
    requires n <= |s|
    requires forall i :: 0 <= i < n ==> p(s[i]) && !q(s[i])
    ensures Keep(s, q) == Keep(s[n..], q)
  {
    if n > 0 {
      assert s[1..][n - 1..] == s[n..];
      KeepRunGone(s[1..], p, q, n - 1);
    }
  }

  /** A class `q` that holds of every character outside `p` and of `r` holds of
      the rewritten text. */
  lemma {:induction false} ReplaceRunsAll(s: string, p: char -> bool, r: string, q: char -> bool)
    requires forall i :: 0 <= i < |s| && !p(s[i]) ==> q(s[i])
    requires All(r, q)
    ensures All(ReplaceRuns(s, p, r), q)
    decreases |s|
  {
    if s != [] {
      var head := if p(s[0]) then r else [s[0]];
      var rest := if p(s[0]) then s[RunLength(s, p)..] else s[1..];
      ReplaceRunsAll(rest, p, r, q);
      var out := ReplaceRuns(s, p, r);
      assert out == head + ReplaceRuns(rest, p, r);
      forall i | 0 <= i < |out| ensures q(out[i]) {
        if i >= |head| {
          assert out[i] == ReplaceRuns(rest, p, r)[i - |head|];
        }
      }
    }
  }

  /** Without characters of class `p` there is nothing to rewrite. */
  lemma {:induction false} ReplaceRunsNone(s: string, p: char -> bool, r: string)
    requires forall i :: 0 <= i < |s| ==> !p(s[i])
    ensures ReplaceRuns(s, p, r) == s
  {
    if s != [] {
      ReplaceRunsNone(s[1..], p, r);
    }
  }

  /** A run of `s` that ends before `s` does is also the run of `s + t`. */
  lemma {:induction false} RunLengthAppend(s: string, t: string, p: char -> bool)
    requires RunLength(s, p) < |s| || t == [] || !p(t[0])
    ensures RunLength(s + t, p) == RunLength(s, p)
  {
    if s == [] {
      assert s + t == t;
    } else {
      assert (s + t)[0] == s[0] && (s + t)[1..] == s[1..] + t;
      if p(s[0]) {
        RunLengthAppend(s[1..], t, p);
      }
    }
  }

  /** Where no run straddles the cut, the rewrite works on the two halves apart. */
  lemma {:induction false} ReplaceRunsAppend(s: string, t: string, p: char -> bool, r: string)
    requires s == [] || t == [] || !p(s[|s| - 1]) || !p(t[0])
    ensures ReplaceRuns(s + t, p, r) == ReplaceRuns(s, p, r) + ReplaceRuns(t, p, r)
    decreases |s|
  {
    if s == [] {
      assert s + t == t;
    } else {
      var n, h := ReplaceRunsStep(s, t, p, r);
      var rest := s[n..];
      if n < |s| {
        assert rest[|rest| - 1] == s[|s| - 1];
        ReplaceRunsAppend(rest, t, p, r);
        AppendAfter(h, ReplaceRuns(rest, p, r), ReplaceRuns(t, p, r));
      } else {
        assert rest == [] && rest + t == t;
        assert ReplaceRuns(s, p, r) == h;
      }
    }
  }

  lemma AppendAfter(h: string, a: string, b: string)
    ensures h + (a + b) == (h + a) + b
  {
  }

  /** One step of `ReplaceRuns` on `s + t` consumes the same prefix as on `s`. */
  lemma ReplaceRunsStep(s: string, t: string, p: char -> bool, r: string) returns (n: nat, h: string)
    requires s != []
    requires !p(s[|s| - 1]) || t == [] || !p(t[0])
    ensures 1 <= n <= |s|
    ensures ReplaceRuns(s + t, p, r) == h + ReplaceRuns(s[n..] + t, p, r)
    ensures ReplaceRuns(s, p, r) == h + ReplaceRuns(s[n..], p, r)
  {
    assert (s + t)[0] == s[0];
    if p(s[0]) {
      n, h := RunLength(s, p), r;
      RunLengthAppend(s, t, p);
      assert (s + t)[n..] == s[n..] + t;
    } else {
      n, h := 1, [s[0]];
      assert (s + t)[1..] == s[1..] + t;
    }
  }

  /** A text made of one run becomes one replacement. */
  lemma ReplaceRunsWhole(s: string, p: char -> bool, r: string)
    requires s != [] && All(s, p)
    ensures ReplaceRuns(s, p, r) == r
  {
    assert RunLength(s, p) == |s|;
    assert s[|s|..] == [];
  }

  lemma ReplaceRunsSingle(c: char, p: char -> bool, r: string)
    ensures ReplaceRuns([c], p, r) == if p(c) then r else [c]
  {
    assert [c][1..] == [];
    if p(c) {
      ReplaceRunsWhole([c], p, r);
    }
  }

  /** Rewriting runs outside `q` into text outside `q` keeps the characters of `q`. */
  lemma {:induction false} ReplaceRunsKeep(s: string, p: char -> bool, r: string, q: char -> bool)
    requires forall c :: p(c) ==> !q(c)
    requires Keep(r, q) == []
    ensures Keep(ReplaceRuns(s, p, r), q) == Keep(s, q)
    decreases |s|
  {
    if s != [] {
      var n := if p(s[0]) then RunLength(s, p) else 1;
      var h := if p(s[0]) then r else [s[0]];
      ReplaceRunsKeep(s[n..], p, r, q);
      KeepAppend(h, ReplaceRuns(s[n..], p, r), q);
      assert s == s[..n] + s[n..];
      KeepAppend(s[..n], s[n..], q);
      if p(s[0]) {
        KeepNone(s[..n], q);
      } else {
        assert s[..n] == h;
      }
    }
  }

  /** What a rewrite into `[x]` starts with. */
  lemma ReplaceRunsHead(s: string, p: char -> bool, x: char)
    requires s != []
    ensures ReplaceRuns(s, p, [x]) != []
    ensures ReplaceRuns(s, p, [x])[0] == if p(s[0]) then x else s[0]
  {
  }

  /** A rewrite into `[x]` ends with the last character of `s` when that is kept. */
  lemma {:induction false} ReplaceRunsLast(s: string, p: char -> bool, x: char)
    requires s != [] && !p(s[|s| - 1])
    ensures ReplaceRuns(s, p, [x]) != []
    ensures ReplaceRuns(s, p, [x])[|ReplaceRuns(s, p, [x])| - 1] == s[|s| - 1]
    decreases |s|
  {
    if p(s[0]) {
      var n := RunLength(s, p);
      assert n < |s|;
      ReplaceRunsLast(s[n..], p, x);
    } else if |s| > 1 {
      ReplaceRunsLast(s[1..], p, x);
    }
  }

  /** After rewriting runs of `p` into one character, no two characters of `p` touch. */
  lemma {:induction false} ReplaceRunsNoDouble(s: string, p: char -> bool, x: char)
    ensures NoAdjacent(ReplaceRuns(s, p, [x]), p, p)
    decreases |s|
  {
    if s != [] {
      var out := ReplaceRuns(s, p, [x]);
      if p(s[0]) {
        var n := RunLength(s, p);
        var tail := ReplaceRuns(s[n..], p, [x]);
        ReplaceRunsNoDouble(s[n..], p, x);
        assert out == [x] + tail;
        if n < |s| {
          ReplaceRunsHead(s[n..], p, x);
        }
        AdjacentCons(x, tail, p, p);
      } else {
        var tail := ReplaceRuns(s[1..], p, [x]);
        ReplaceRunsNoDouble(s[1..], p, x);
        assert out == [s[0]] + tail;
        AdjacentCons(s[0], tail, p, p);
      }
    }
  }

  lemma AdjacentCons(c: char, t: string, a: char -> bool, b: char -> bool)
    requires NoAdjacent(t, a, b)
    requires t != [] ==> !(a(c) && b(t[0]))
    ensures NoAdjacent([c] + t, a, b)
  {
    var s := [c] + t;
    forall i | 0 <= i < |s| - 1 ensures !(a(s[i]) && b(s[i + 1])) {
      if i > 0 {
        assert s[i] == t[i - 1] && s[i + 1] == t[i];
      }
    }
  }

  lemma AdjacentAppend(u: string, t: string, a: char -> bool, b: char -> bool)
    requires NoAdjacent(u, a, b) && NoAdjacent(t, a, b)
    requires u != [] && t != [] ==> !(a(u[|u| - 1]) && b(t[0]))
    ensures NoAdjacent(u + t, a, b)
  {
    var s := u + t;
    forall i | 0 <= i < |s| - 1 ensures !(a(s[i]) && b(s[i + 1])) {
      if i + 1 < |u| {
        assert s[i] == u[i] && s[i + 1] == u[i + 1];
      } else if i >= |u| {
        assert s[i] == t[i - |u|] && s[i + 1] == t[i + 1 - |u|];
      }
    }
  }

  /** Rewriting runs of `p` into one character outside the classes `a` and `b`
      creates no new `a`-`b` neighbours. */
  lemma {:induction false} ReplaceRunsKeepsNoAdjacent(s: string, p: char -> bool, x: char, a: char -> bool, b: char -> bool)
    requires NoAdjacent(s, a, b)
    requires forall i :: 0 <= i < |s| && p(s[i]) ==> !a(s[i]) && !b(s[i])
    requires !a(x) && !b(x)
    ensures NoAdjacent(ReplaceRuns(s, p, [x]), a, b)
    decreases |s|
  {
    if s != [] {
      NoAdjacentSlice(s, a, b, 1, |s|);
      if p(s[0]) {
        var n := RunLength(s, p);
        NoAdjacentSlice(s, a, b, n, |s|);
        ReplaceRunsKeepsNoAdjacent(s[n..], p, x, a, b);
        AdjacentCons(x, ReplaceRuns(s[n..], p, [x]), a, b);
      } else {
        ReplaceRunsKeepsNoAdjacent(s[1..], p, x, a, b);
        if |s| > 1 {
          ReplaceRunsHead(s[1..], p, x);
        }
        AdjacentCons(s[0], ReplaceRuns(s[1..], p, [x]), a, b);
      }
    }
  }

  /** When no two characters of `p` touch, every run is a single character and
      the run rewrite is a character-for-character one. */
  lemma {:induction false} ReplaceRunsSingles(s: string, p: char -> bool, x: char)
    requires NoAdjacent(s, p, p)
    ensures ReplaceRuns(s, p, [x]) == ReplaceEach(s, p, x)
  {
    if s != [] {
      NoAdjacentSlice(s, p, p, 1, |s|);
      ReplaceRunsSingles(s[1..], p, x);
      if p(s[0]) {
        assert RunLength(s, p) == 1;
      }
    }
  }

  /** Collapsing repeats of `x` changes nothing when no two `x` touch. */
  lemma SqueezeNone(s: string, x: char)
    requires NoAdjacent(s, Is(x), Is(x))
    ensures Squeeze(s, x) == s
  {
    ReplaceRunsSingles(s, Is(x), x);
  }

  // ---------------------------------------------------------------------------
  // trim
  // ---------------------------------------------------------------------------

  /** The default character list of PHP's `trim`: " \t\n\r\0\x0B". */
  predicate IsTrimChar(c: char)
  {
    c == ' ' || c == '\t' || c == '\n' || c == '\r' || c == '\0' || c as int == 0x0B
  }

  /** `ltrim($s, P)`: drops the leading characters of class `p`. */
  function TrimStart(s: string, p: char -> bool): (r: string)
    ensures |r| <= |s|
    ensures r == s[|s| - |r|..]
    ensures r != [] ==> !p(r[0])
    ensures forall i :: 0 <= i < |s| - |r| ==> p(s[i])
  {
    s[RunLength(s, p)..]
  }

  /** `rtrim($s, P)`: drops the trailing characters of class `p`. */
  function TrimEnd(s: string, p: char -> bool): (r: string)
    ensures |r| <= |s|
    ensures r == s[..|r|]
    ensures r != [] ==> !p(r[|r| - 1])
    ensures forall i :: |r| <= i < |s| ==> p(s[i])
  {
    if s == [] || !p(s[|s| - 1]) then s else TrimEnd(s[..|s| - 1], p)
  }

  /** `trim($s, P)`. */
  function TrimWith(s: string, p: char -> bool): (r: string)
    ensures NotAtEnds(r, p)
  {
    TrimEnd(TrimStart(s, p), p)
  }

  /** `trim($s)` with the default character list. */
  function Trim(s: string): string { TrimWith(s, IsTrimChar) }

  /** Trimming cuts a slice out of the middle and drops only characters of `p`. */
  lemma TrimSlice(s: string, p: char -> bool) returns (i: nat, j: nat)
    ensures i <= j <= |s| && TrimWith(s, p) == s[i..j]
    ensures forall k :: 0 <= k < i ==> p(s[k])
    ensures forall k :: j <= k < |s| ==> p(s[k])
  {
    var t := TrimStart(s, p);
    i := |s| - |t|;
    var u := TrimEnd(t, p);
    j := i + |u|;
    assert t == s[i..];
    assert u == t[..|u|] == s[i..j];
  }

  lemma TrimNone(s: string, p: char -> bool)
    requires NotAtEnds(s, p)
    ensures TrimWith(s, p) == s
  {
  }

  /** Trimming keeps the classes that hold everywhere and the absent neighbours. */
  lemma TrimKeeps(s: string, p: char -> bool, q: char -> bool, a: char -> bool, b: char -> bool)
    ensures All(s, q) ==> All(TrimWith(s, p), q)
    ensures NoAdjacent(s, a, b) ==> NoAdjacent(TrimWith(s, p), a, b)
  {
    var i, j := TrimSlice(s, p);
    if NoAdjacent(s, a, b) {
      NoAdjacentSlice(s, a, b, i, j);
    }
  }

  /** Text after a character kept by `p` is kept whole by `rtrim`. */
  lemma {:induction false} TrimEndAfter(z: string, y: string, p: char -> bool)
    requires y != [] && !p(y[0])
    ensures TrimEnd(z + y, p) == z + TrimEnd(y, p)
    decreases |y|
  {
    var zy := z + y;
    if p(y[|y| - 1]) {
      var y' := y[..|y| - 1];
      assert zy[..|zy| - 1] == z + y';
      TrimEndAfter(z, y', p);
    }
  }

  /** Trimming text whose two outer parts end and start with characters
      outside `p` trims the outer parts alone and keeps the middle. */
  lemma TrimAround(x: string, m: string, y: string, p: char -> bool)
    requires x != [] && !p(x[|x| - 1])
    requires y != [] && !p(y[0])
    ensures TrimWith(x + m + y, p) == TrimWith(x, p) + m + TrimWith(y, p)
  {
    RunLengthAppend(x, m + y, p);
    assert x + m + y == x + (m + y);
    var t := TrimStart(x, p);
    assert TrimStart(x + m + y, p) == t + (m + y);
    TrimEndAfter(t + m, y, p);
    assert t + (m + y) == t + m + y;
    assert t != [] && t[|t| - 1] == x[|x| - 1];
    assert TrimStart(y, p) == y;
  }

  /** Characters outside `q` around a text add nothing to what is kept. */
  lemma KeepFramed(a: string, m: string, b: string, q: char -> bool)
    requires forall k :: 0 <= k < |a| ==> !q(a[k])
    requires forall k :: 0 <= k < |b| ==> !q(b[k])
    ensures Keep(a + m + b, q) == Keep(m, q)
  {
    KeepNone(a, q);
    KeepNone(b, q);
    KeepAppend(a + m, b, q);
    KeepAppend(a, m, q);
  }

  /** Trimming characters outside `q` keeps the characters of `q`. */
  lemma TrimKeepsContent(s: string, p: char -> bool, q: char -> bool)
    requires forall c :: p(c) ==> !q(c)
    ensures Keep(TrimWith(s, p), q) == Keep(s, q)
  {
    var i, j := TrimSlice(s, p);
    var a, m, b := s[..i], s[i..j], s[j..];
    assert s == a + m + b;
    assert forall k :: 0 <= k < |a| ==> !q(a[k]) by {
      forall k | 0 <= k < |a| ensures !q(a[k]) {
        assert a[k] == s[k] && p(s[k]);
      }
    }
    assert forall k :: 0 <= k < |b| ==> !q(b[k]) by {
      forall k | 0 <= k < |b| ensures !q(b[k]) {
        assert b[k] == s[j + k] && p(s[j + k]);
      }
    }
    KeepFramed(a, m, b, q);
  }

  // ---------------------------------------------------------------------------
  // str_repeat
  // ---------------------------------------------------------------------------

  /** `str_repeat($s, $n)`. */
  function Repeat(s: string, n: nat): (r: string)
    ensures |r| == |s| * n
  {
    if n == 0 then [] else s + Repeat(s, n - 1)
  }
}
