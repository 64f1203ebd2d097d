/** `Str::pad`: `str_pad` on the UTF-8 bytes of the input, with the target
    length widened by the bytes the input has beyond one per character, so
    that a one-byte pad string pads to a number of characters. */
module Padding {
  import opened Php

  newtype byte = x: int | 0 <= x < 0x100

  // The pad types of `str_pad`.
  const STR_PAD_LEFT: int := 0
  const STR_PAD_RIGHT: int := 1
  const STR_PAD_BOTH: int := 2

  // ---------------------------------------------------------------------------
  // UTF-8
  // ---------------------------------------------------------------------------

  /** The UTF-8 encoding of one Unicode scalar value. */
  function Utf8Char(c: char): (r: seq<byte>)
    ensures 1 <= |r| <= 4
    ensures |r| == 1 <==> IsAscii(c)
    ensures IsAscii(c) ==> r == [c as int as byte]
  {
    var n := c as int;
    if n < 0x80 then [n as byte]
    else if n < 0x800 then [(0xC0 + n / 0x40) as byte, (0x80 + n % 0x40) as byte]
    else if n < 0x1_0000 then [(0xE0 + n / 0x1000) as byte, (0x80 + n / 0x40 % 0x40) as byte, (0x80 + n % 0x40) as byte]
    else [(0xF0 + n / 0x4_0000) as byte, (0x80 + n / 0x1000 % 0x40) as byte, (0x80 + n / 0x40 % 0x40) as byte, (0x80 + n % 0x40) as byte]
  }

  /** The UTF-8 bytes of a string, whose number is PHP's `strlen`; `mb_strlen`
      is `|s|`. */
  function Utf8Encode(s: string): (r: seq<byte>)
    ensures |r| >= |s|
    ensures |r| == 0 <==> s == []
  {
    if s == [] then [] else Utf8Char(s[0]) + Utf8Encode(s[1..])
  }

  lemma {:induction false} Utf8EncodeAppend(a: string, b: string)
    ensures Utf8Encode(a + b) == Utf8Encode(a) + Utf8Encode(b)
  {
    if a == [] {
      assert a + b == b;
    } else {
      assert (a + b)[0] == a[0] && (a + b)[1..] == a[1..] + b;
      Utf8EncodeAppend(a[1..], b);
    }
  }

  /** ASCII text is its own encoding, byte for character. */
  lemma {:induction false} Utf8EncodeAscii(s: string)
    requires All(s, IsAscii)
    ensures |Utf8Encode(s)| == |s|
    ensures forall i :: 0 <= i < |s| ==> Utf8Encode(s)[i] == s[i] as int as byte
  {
    if s != [] {
      AllSlice(s, IsAscii, 1, |s|);
      Utf8EncodeAscii(s[1..]);
      var r := Utf8Encode(s);
      forall i | 0 <= i < |s| ensures r[i] == s[i] as int as byte {
        if i > 0 {
          assert r[i] == Utf8Encode(s[1..])[i - 1];
        }
      }
    }
  }

  // ---------------------------------------------------------------------------
  // str_pad
  // ---------------------------------------------------------------------------

  /** `n` units of the pad string, cycling through it from its start. */
  function Cycle<T>(pad: seq<T>, n: nat): (r: seq<T>)
    requires pad != []
    ensures |r| == n
    ensures forall i :: 0 <= i < n ==> r[i] == pad[i % |pad|]
  {
    seq(n, i requires 0 <= i < n => pad[i % |pad|])
  }

  /** How many of the `num` pad units go in front. */
  function LeftCount(num: nat, padType: int): nat
  {
    if padType == STR_PAD_LEFT then num else if padType == STR_PAD_BOTH then num / 2 else 0
  }

  /** PHP 8's `str_pad($input, $padLength, $pad, $padType)` over any unit of
      text.  `None` is the `ValueError` raised for an empty pad string or an
      unknown pad type, which is checked only once padding is needed. */
  function StrPad<T>(input: seq<T>, padLength: int, pad: seq<T>, padType: int): (r: Option<seq<T>>)
    ensures r.None? <==> padLength > |input| && (pad == [] || !(STR_PAD_LEFT <= padType <= STR_PAD_BOTH))
  {
    if padLength <= |input| then Some(input)
    else if pad == [] then None
    else if padType < STR_PAD_LEFT || padType > STR_PAD_BOTH then None
    else
      var num := padLength - |input|;
      var left := LeftCount(num, padType);
      Some(Cycle(pad, left) + input + Cycle(pad, num - left))
  }

  /** What a successful `str_pad` returns: as long as asked for or as the
      input, the input after the left padding, the padding cycling through
      the pad string from its start on each side. */
  lemma StrPadShape<T>(input: seq<T>, padLength: int, pad: seq<T>, padType: int)
    requires StrPad(input, padLength, pad, padType).Some?
    ensures var r := StrPad(input, padLength, pad, padType).value;
      var left := if padLength > |input| then LeftCount(padLength - |input|, padType) else 0;
      && |r| == (if padLength > |input| then padLength else |input|)
      && r[left..left + |input|] == input
      && forall i :: 0 <= i < |r| && !(left <= i < left + |input|) ==>
           r[i] == pad[(if i < left then i else i - left - |input|) % |pad|]
  {
    if padLength > |input| {
      var num := padLength - |input|;
      var left := LeftCount(num, padType);
      var r := Cycle(pad, left) + input + Cycle(pad, num - left);
      assert r[left..left + |input|] == input;
    }
  }

  /** `Str::pad($input, $length, $string, $type)`. */
  function Pad(input: string, length: int, padString: string, padType: int): Option<seq<byte>>
  {
    var bytes := Utf8Encode(input);
    var diff := |bytes| - |input|;
    StrPad(bytes, length + diff, Utf8Encode(padString), padType)
  }

  /** With an ASCII pad string, `pad` is `str_pad` counted in characters and
      then encoded. */
  lemma PadCountsCharacters(input: string, length: int, padString: string, padType: int)
    requires All(padString, IsAscii)
    ensures match StrPad(input, length, padString, padType)
      case None => Pad(input, length, padString, padType).None?
      case Some(t) => Pad(input, length, padString, padType) == Some(Utf8Encode(t))
  {
    var bytes := Utf8Encode(input);
    var pad := Utf8Encode(padString);
    Utf8EncodeAscii(padString);
    if length > |input| && padString != [] && STR_PAD_LEFT <= padType <= STR_PAD_BOTH {
      var num := length - |input|;
      var left := LeftCount(num, padType);
      CycleEncodes(padString, left);
      CycleEncodes(padString, num - left);
      Utf8EncodeAppend(Cycle(padString, left), input);
      Utf8EncodeAppend(Cycle(padString, left) + input, Cycle(padString, num - left));
    }
  }

  /** Cycling an ASCII pad string commutes with encoding it. */
  lemma CycleEncodes(padString: string, n: nat)
    requires padString != [] && All(padString, IsAscii)
    ensures Utf8Encode(Cycle(padString, n)) == Cycle(Utf8Encode(padString), n)
  {
    var c := Cycle(padString, n);
    Utf8EncodeAscii(padString);
    assert All(c, IsAscii);
    Utf8EncodeAscii(c);
  }

  /** So the result is as many characters long as asked for, or the input's own
      length when that is longer. */
  lemma PadLength(input: string, length: int, padString: string, padType: int)
    requires All(padString, IsAscii)
    requires padString != [] && STR_PAD_LEFT <= padType <= STR_PAD_BOTH
    ensures StrPad(input, length, padString, padType).Some?
    ensures Pad(input, length, padString, padType) == Some(Utf8Encode(StrPad(input, length, padString, padType).value))
    ensures |StrPad(input, length, padString, padType).value| == if length > |input| then length else |input|
  {
    PadCountsCharacters(input, length, padString, padType);
    StrPadShape(input, length, padString, padType);
  }

  // ---------------------------------------------------------------------------
  // The rows of the test
  // ---------------------------------------------------------------------------

  /** A test row of `pad` follows from the character-level `str_pad`, which
      the pad string being ASCII makes the byte-level result. */
  lemma PadRow(input: string, length: int, padString: string, padType: int, expected: string)
    requires All(padString, IsAscii)
    requires StrPad(input, length, padString, padType) == Some(expected)
    ensures Pad(input, length, padString, padType) == Some(Utf8Encode(expected))
  {
    PadCountsCharacters(input, length, padString, padType);
  }

  /** `Str::pad('абв', 6)`: three characters of six bytes padded to six
      characters, where byte-wise `str_pad` would add nothing. */
  lemma PadRight()
    ensures Pad("абв", 6, " ", STR_PAD_RIGHT) == Some(Utf8Encode("абв   "))
    ensures |Utf8Encode("абв")| == 6
  {
    assert StrPad("абв", 6, " ", STR_PAD_RIGHT) == Some(Cycle(" ", 0) + "абв" + Cycle(" ", 3));
    assert Cycle(" ", 0) + "абв" + Cycle(" ", 3) == "абв   ";
    assert Cycle(" ", 3) == "   ";
    assert Cycle(" ", 0) == "";
    PadRow("абв", 6, " ", STR_PAD_RIGHT, "абв   ");
  }

  lemma PadLeft()
    ensures Pad("абв", 6, " ", STR_PAD_LEFT) == Some(Utf8Encode("   абв"))
  {
    assert StrPad("абв", 6, " ", STR_PAD_LEFT) == Some(Cycle(" ", 3) + "абв" + Cycle(" ", 0));
    assert Cycle(" ", 3) + "абв" + Cycle(" ", 0) == "   абв";
    assert Cycle(" ", 3) == "   ";
    assert Cycle(" ", 0) == "";
    PadRow("абв", 6, " ", STR_PAD_LEFT, "   абв");
  }

  lemma PadBoth()
    ensures Pad("абв", 6, " ", STR_PAD_BOTH) == Some(Utf8Encode(" абв  "))
  {
    assert StrPad("абв", 6, " ", STR_PAD_BOTH) == Some(Cycle(" ", 1) + "абв" + Cycle(" ", 2));
    assert Cycle(" ", 1) + "абв" + Cycle(" ", 2) == " абв  ";
    assert Cycle(" ", 1) == " ";
    assert Cycle(" ", 2) == "  ";
    PadRow("абв", 6, " ", STR_PAD_BOTH, " абв  ");
  }

  /** `Str::pad('абвгд', 3)`: a longer input comes back unchanged. */
  lemma PadShorter()
    ensures Pad("абвгд", 3, " ", STR_PAD_RIGHT) == Some(Utf8Encode("абвгд"))
  {
    assert StrPad("абвгд", 3, " ", STR_PAD_RIGHT) == Some("абвгд");
    PadRow("абвгд", 3, " ", STR_PAD_RIGHT, "абвгд");
  }

  /** `Str::pad(1, 5, 0, STR_PAD_LEFT)`, the arguments cast to strings. */
  lemma PadDigits()
    ensures Pad("1", 5, "0", STR_PAD_LEFT) == Some(Utf8Encode("00001"))
  {
    assert StrPad("1", 5, "0", STR_PAD_LEFT) == Some(Cycle("0", 4) + "1" + Cycle("0", 0));
    assert Cycle("0", 4) + "1" + Cycle("0", 0) == "00001";
    assert Cycle("0", 4) == "0000";
    assert Cycle("0", 0) == "";
    PadRow("1", 5, "0", STR_PAD_LEFT, "00001");
  }
}
