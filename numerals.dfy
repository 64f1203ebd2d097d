/** Writing integers in positional notation, as the toolkit's `sprintf("%X")`,
    string casts of integers and `mb_ord` output need it. */
module Numerals {

  /** The digit of value `d`, upper-case for 10..15 (`%X`). */
  function DigitChar(d: nat): char
    requires d < 16
  {
    if d < 10 then ('0' as int + d) as char else ('A' as int + d - 10) as char
  }

  predicate IsDigitOf(c: char, base: nat)
  {
    ('0' <= c <= '9' && (c as int - '0' as int) < base) || ('A' <= c <= 'F' && (c as int - 'A' as int + 10) < base)
  }

  function DigitValue(c: char): nat
  {
    if '0' <= c <= '9' then c as int - '0' as int
    else if 'A' <= c <= 'F' then c as int - 'A' as int + 10
    else 0
  }

  lemma DigitRoundTrip(d: nat, base: nat)
    requires d < base <= 16
    ensures IsDigitOf(DigitChar(d), base) && DigitValue(DigitChar(d)) == d
  {
  }

  lemma DivMod(n: nat, base: nat)
    requires 2 <= base
    ensures n == (n / base) * base + n % base && n % base < base
    ensures n >= base ==> 1 <= n / base < n
  {
  }

  /** `n` written in `base`, most significant digit first, without leading zeros. */
  function ToDigits(n: nat, base: nat): (r: string)
    requires 2 <= base <= 16
    ensures |r| >= 1
    ensures forall i :: 0 <= i < |r| ==> IsDigitOf(r[i], base)
    ensures n > 0 ==> r[0] != '0'
    ensures r[0] == '0' ==> r == "0"
    decreases n
  {
    DivMod(n, base);
    DigitRoundTrip(n % base, base);
    if n < base then [DigitChar(n)] else ToDigits(n / base, base) + [DigitChar(n % base)]
  }

  /** The number a string of digits denotes in `base`. */
  function FromDigits(s: string, base: nat): nat
  {
    if s == [] then 0 else FromDigits(s[..|s| - 1], base) * base + DigitValue(s[|s| - 1])
  }

  lemma {:induction false} FromToDigits(n: nat, base: nat)
    requires 2 <= base <= 16
    ensures FromDigits(ToDigits(n, base), base) == n
    decreases n
  {
    DivMod(n, base);
    DigitRoundTrip(n % base, base);
    if n < base {
      assert [DigitChar(n)][..0] == [];
    } else {
      var hi := ToDigits(n / base, base);
      FromToDigits(n / base, base);
      assert (hi + [DigitChar(n % base)])[..|hi|] == hi;
    }
  }

  /** Leading zeros do not change the value. */
  lemma {:induction false} FromDigitsZeros(z: nat, s: string, base: nat)
    ensures FromDigits(seq(z, _ => '0') + s, base) == FromDigits(s, base)
    decreases z, |s|
  {
    var zs := seq(z, _ => '0');
    if s == [] {
      if z > 0 {
        assert (zs + s)[..z - 1] == seq(z - 1, _ => '0') + [];
        FromDigitsZeros(z - 1, [], base);
        assert zs + s == zs;
      }
    } else {
      assert (zs + s)[..|zs + s| - 1] == zs + s[..|s| - 1];
      FromDigitsZeros(z, s[..|s| - 1], base);
    }
  }

  /** `sprintf("%'0{width}s")`: pads on the left with '0' up to `width` characters. */
  function ZeroPad(s: string, width: nat): (r: string)
    ensures |r| == if |s| >= width then |s| else width
    ensures r[|r| - |s|..] == s
    ensures forall i :: 0 <= i < |r| - |s| ==> r[i] == '0'
  {
    if |s| >= width then s else seq(width - |s|, _ => '0') + s
  }

  /** `sprintf("%'04X", n)`: upper-case hexadecimal, at least four digits. */
  function Hex4(n: nat): (r: string)
    ensures |r| >= 4
    ensures forall i :: 0 <= i < |r| ==> IsDigitOf(r[i], 16)
    ensures FromDigits(r, 16) == n
    ensures |r| == 4 || r[0] != '0'
  {
    var h := ToDigits(n, 16);
    FromToDigits(n, 16);
    if |h| < 4 then
      FromDigitsZeros(4 - |h|, h, 16);
      ZeroPad(h, 4)
    else
      h
  }

  /** PHP's integer-to-string conversion: decimal, with a minus sign when negative. */
  function Decimal(n: int): (r: string)
    ensures r != []
    ensures n < 0 <==> r[0] == '-'
    ensures n < 0 ==> FromDigits(r[1..], 10) == -n && forall i :: 1 <= i < |r| ==> IsDigitOf(r[i], 10)
    ensures n >= 0 ==> FromDigits(r, 10) == n && forall i :: 0 <= i < |r| ==> IsDigitOf(r[i], 10)
    ensures var d := if n < 0 then r[1..] else r; d != [] && (d == "0" || d[0] != '0')
  {
    if n < 0 then
      FromToDigits(-n, 10);
      "-" + ToDigits(-n, 10)
    else
      FromToDigits(n, 10);
      ToDigits(n, 10)
  }
}
