/** Space padding used by the owner and size columns. */
module Padding {

  /** Every character of `s` is a space. */
  predicate AllSpaces(s: string)
  {
    forall i :: 0 <= i < |s| ==> s[i] == ' '
  }

  /** `n` spaces: what `n` iterations of a `push(' ')` loop leave behind. */
  function Spaces(n: nat): (r: string)
    ensures |r| == n
    ensures AllSpaces(r)
  {
    if n == 0 then "" else Spaces(n - 1) + " "
  }

  /** Right-aligns `s` in a column of `width` characters. */
  function PadLeft(s: string, width: nat): (r: string)
    requires |s| <= width
    ensures |r| == width
    ensures r[width - |s|..] == s
    ensures AllSpaces(r[..width - |s|])
    ensures width == |s| ==> r == s
  {
    Spaces(width - |s|) + s
  }

  /** Left-aligns `s` in a column of `width` characters. */
  function PadRight(s: string, width: nat): (r: string)
    requires |s| <= width
    ensures |r| == width
    ensures r[..|s|] == s
    ensures AllSpaces(r[|s|..])
    ensures width == |s| ==> r == s
  {
    s + Spaces(width - |s|)
  }

  /** A string made only of spaces is the one of its length. */
  lemma SpacesUnique(s: string)
    requires AllSpaces(s)
    ensures s == Spaces(|s|)
  {
  }

  /** The shape stated by PadLeft's contract determines the padded string. */
  lemma PadLeftUnique(s: string, width: nat, r: string)
    requires |s| <= width && |r| == width
    requires r[width - |s|..] == s
    requires AllSpaces(r[..width - |s|])
    ensures r == PadLeft(s, width)
  {
  }

  /** The shape stated by PadRight's contract determines the padded string. */
  lemma PadRightUnique(s: string, width: nat, r: string)
    requires |s| <= width && |r| == width
    requires r[..|s|] == s
    requires AllSpaces(r[|s|..])
    ensures r == PadRight(s, width)
  {
  }
}
