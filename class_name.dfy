/** `Str::getShortClassName` for a class name given as a string. */
module ClassName {
  import opened Php

  /** The namespace separator. */
  const Backslash: char := '\\'

  /** `strrchr($s, '\\')`: the tail of `s` from its last backslash on, or
      `None` (PHP's `false`) when there is none. */
  function LastBackslashTail(s: string): (r: Option<string>)
    ensures r.None? <==> Backslash !in s
    ensures r.Some? ==> r.value != [] && r.value[0] == Backslash && Backslash !in r.value[1..]
    ensures r.Some? ==> |r.value| <= |s| && s[|s| - |r.value|..] == r.value
  {
    if s == [] then None
    else if s[|s| - 1] == Backslash then Some([Backslash])
    else match LastBackslashTail(s[..|s| - 1])
      case None => None
      case Some(t) => Some(t + [s[|s| - 1]])
  }

  /** `substr($t, 1)` where `false` counts as the empty string. */
  function DropFirst(t: Option<string>): string
  {
    match t
    case None => []
    case Some(u) => if u == [] then [] else u[1..]
  }

  /** `Str::getShortClassName($class)` as written: `substr(strrchr($class, '\\'), 1)`. */
  function GetShortClassName(s: string): string
  {
    DropFirst(LastBackslashTail(s))
  }

  /** With a namespace, the short name is what follows the last backslash. */
  lemma GetShortClassNameSplits(s: string)
    requires Backslash in s
    ensures Backslash !in GetShortClassName(s)
    ensures var r := GetShortClassName(s);
      |r| < |s| && s == s[..|s| - |r| - 1] + [Backslash] + r
  {
    var t := LastBackslashTail(s).value;
    assert t == [Backslash] + t[1..];
  }

  /** Without a namespace the name as written comes back empty: the class
      `Str` in the global namespace gets "" instead of "Str". */
  lemma GetShortClassNameGlobal(s: string)
    requires Backslash !in s
    ensures GetShortClassName(s) == []
  {
  }

  lemma GetShortClassNameOfStr()
    ensures GetShortClassName("Str") == ""
    ensures ShortClassName("Str") == "Str"
  {
  }

  /** The documented behaviour, "class name without namespace": the part after
      the last backslash, or the whole name when it has no namespace. */
  function ShortClassName(s: string): (r: string)
    ensures Backslash !in r
    ensures Backslash in s ==> r == GetShortClassName(s)
    ensures Backslash !in s ==> r == s
  {
    if Backslash in s then
      GetShortClassNameSplits(s);
      GetShortClassName(s)
    else s
  }

  /** The short name is always a suffix of the full name, and the rest is the
      namespace followed by a backslash, if any. */
  lemma ShortClassNameSuffix(s: string)
    ensures var r := ShortClassName(s);
      |r| <= |s| && s[|s| - |r|..] == r
      && (|r| < |s| ==> s[|s| - |r| - 1] == Backslash)
  {
    if Backslash in s {
      GetShortClassNameSplits(s);
      var r := ShortClassName(s);
      assert s[|s| - |r|..] == r;
    }
  }

  /** `Str::getShortClassName(Str::class)` in the source's own namespace. */
  lemma ShortClassNameOfNamespaced()
    ensures GetShortClassName("Alhames\\String\\Str") == "Str"
  {
    assert "Alhames\\String\\Str"[..|"Alhames\\String\\Str"| - 1] == "Alhames\\String\\St";
  }
}
