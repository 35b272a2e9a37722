/** The size column: a byte length scaled to one of five units, the scaled
    magnitude right-aligned and the unit left-aligned, painted by tier. */
module MetaSize {
  import opened Padding
  import Color

  datatype Option<T> = None | Some(value: T)

  datatype Unit = Byte | Kilo | Mega | Giga | Tera

  /** `value` is pre-scaled so that `value / 1024` is the shown magnitude
      whatever the unit. */
  datatype Size = Size(value: nat, unit: Unit)

  const KiB: nat := 1024
  const MiB: nat := 1024 * 1024
  const GiB: nat := 1024 * 1024 * 1024
  const TiB: nat := 1024 * 1024 * 1024 * 1024

  /** Position of a unit in the scale, Byte = 0 up to Tera = 4. */
  function Index(u: Unit): nat
  {
    match u
    case Byte => 0
    case Kilo => 1
    case Mega => 2
    case Giga => 3
    case Tera => 4
  }

  /** Bytes per unit: 1024 to the power Index(u). */
  function Scale(u: Unit): nat
  {
    match u
    case Byte => 1
    case Kilo => KiB
    case Mega => MiB
    case Giga => GiB
    case Tera => TiB
  }

  /** Tier selection (`From<&Metadata>`): the unit is the largest one whose
      scale does not exceed `len` (Byte below 1024, Tera with no upper
      bound), and the stored value is `len * 1024 / Scale(unit)`, so a
      single division by 1024 gives `len / Scale(unit)` for every unit. */
  function FromLen(len: nat): (s: Size)
    ensures s.unit == Byte || Scale(s.unit) <= len
    ensures s.unit == Tera || len < Scale(s.unit) * 1024
    ensures s.value == len * 1024 / Scale(s.unit)
    ensures s.value / 1024 == len / Scale(s.unit)
    ensures s.unit != Tera ==> s.value / 1024 < 1024
    ensures s.unit == Byte ==> s.value % 1024 == 0
  {
    if len < 1024 then Size(len * 1024, Byte)
    else if len < 1024 * 1024 then Size(len, Kilo)
    else if len < 1024 * 1024 * 1024 then
      assert len * 1024 / (1024 * 1024) == len / 1024;
      assert len / 1024 / 1024 == len / (1024 * 1024);
      Size(len / 1024, Mega)
    else if len < 1024 * 1024 * 1024 * 1024 then
      assert len * 1024 / (1024 * 1024 * 1024) == len / (1024 * 1024);
      assert len / (1024 * 1024) / 1024 == len / (1024 * 1024 * 1024);
      Size(len / (1024 * 1024), Giga)
    else
      assert len * 1024 / (1024 * 1024 * 1024 * 1024) == len / (1024 * 1024 * 1024);
      assert len / (1024 * 1024 * 1024) / 1024 == len / (1024 * 1024 * 1024 * 1024);
      Size(len / (1024 * 1024 * 1024), Tera)
  }

  /** Exactly one unit meets the selection rule for a given length. */
  lemma TierIsUnique(len: nat, u: Unit)
    requires u == Byte || Scale(u) <= len
    requires u == Tera || len < Scale(u) * 1024
    ensures FromLen(len).unit == u
  {
  }

  /** The tier table, range by range; the strict tests put 1024 in Kilo. */
  lemma TierTable(len: nat)
    ensures len < KiB ==> FromLen(len) == Size(len * 1024, Byte)
    ensures KiB <= len < MiB ==> FromLen(len) == Size(len, Kilo)
    ensures MiB <= len < GiB ==> FromLen(len) == Size(len / KiB, Mega)
    ensures GiB <= len < TiB ==> FromLen(len) == Size(len / MiB, Giga)
    ensures TiB <= len ==> FromLen(len) == Size(len / GiB, Tera)
    ensures FromLen(1024) == Size(1024, Kilo)
    ensures FromLen(1023) == Size(1023 * 1024, Byte)
  {
  }

  /** `paint`: Byte and Kilo are small, Mega medium, Giga and Tera large.
      The role is a function of the unit alone. */
  function Paint(s: Size): (r: Color.Elem)
    ensures r == Color.FileSmall <==> Index(s.unit) <= 1
    ensures r == Color.FileMedium <==> Index(s.unit) == 2
    ensures r == Color.FileLarge <==> Index(s.unit) >= 3
  {
    if s.unit == Byte || s.unit == Kilo then Color.FileSmall
    else if s.unit == Mega then Color.FileMedium
    else Color.FileLarge
  }

  /** The colour role of a length, stated on the length itself. */
  lemma PaintByLength(len: nat)
    ensures Paint(FromLen(len)) == Color.FileSmall <==> len < MiB
    ensures Paint(FromLen(len)) == Color.FileMedium <==> MiB <= len < GiB
    ensures Paint(FromLen(len)) == Color.FileLarge <==> GiB <= len
  {
  }

  /** `render_unit`: one letter for bytes, two for the larger units, always
      ending in 'B'. */
  function RenderUnit(u: Unit): (r: string)
    ensures |r| == if u == Byte then 1 else 2
    ensures r[|r| - 1] == 'B'
  {
    match u
    case Byte => "B"
    case Kilo => "KB"
    case Mega => "MB"
    case Giga => "GB"
    case Tera => "TB"
  }

  /** The unit strings. */
  lemma RenderUnitTable()
    ensures RenderUnit(Byte) == "B" && RenderUnit(Kilo) == "KB"
    ensures RenderUnit(Mega) == "MB" && RenderUnit(Giga) == "GB"
    ensures RenderUnit(Tera) == "TB"
  {
  }

  /** Different units are rendered differently. */
  lemma RenderUnitInjective(a: Unit, b: Unit)
    requires RenderUnit(a) == RenderUnit(b)
    ensures a == b
  {
  }

  /** `str::find`: the index of the first occurrence of `c`, if any. */
  function Find(s: string, c: char): (r: Option<nat>)
    ensures r.None? ==> c !in s
    ensures r.Some? ==> r.value < |s| && s[r.value] == c && c !in s[..r.value]
  {
    if |s| == 0 then None
    else if s[0] == c then Some(0)
    else match Find(s[1..], c)
      case None => None
      case Some(i) => Some(i + 1)
  }

  /** An index holding `c` with no `c` before it is the one Find returns. */
  lemma FindUnique(s: string, c: char, i: nat)
    requires i < |s| && s[i] == c && c !in s[..i]
    ensures Find(s, c) == Some(i)
  {
  }

  /** What `render_value` needs of the formatted number: a '.' in it is
      followed by at least one character (otherwise `split_at` panics). */
  predicate DotNotLast(s: string)
  {
    match Find(s, '.')
    case None => true
    case Some(i) => i + 1 < |s|
  }

  /** `render_value` on the decimal string `sizeStr` that formatting
      `value / 1024.0` produced: with no '.', the string is kept; when the
      first fractional digit is '0' the fraction is dropped; otherwise that
      one digit is kept. The result is a prefix of the input that keeps the
      whole integer part, its first '.' (if any) has exactly one character
      after it, that character is kept unless it is '0', and it never ends
      in ".0". */
  function RenderValue(sizeStr: string): (r: string)
    requires DotNotLast(sizeStr)
    ensures r <= sizeStr
    ensures '.' !in sizeStr ==> r == sizeStr
    ensures '.' in sizeStr ==> Find(sizeStr, '.').Some? && Find(sizeStr, '.').value <= |r|
    ensures Find(r, '.').Some? ==> Find(r, '.').value == |r| - 2
    ensures Find(sizeStr, '.').Some? && sizeStr[Find(sizeStr, '.').value + 1] != '0' ==>
      |r| == Find(sizeStr, '.').value + 2
    ensures !(|r| >= 2 && r[|r| - 2] == '.' && r[|r| - 1] == '0')
  {
    match Find(sizeStr, '.')
    case None => sizeStr
    case Some(i) =>
      if sizeStr[i + 1] == '0' then
        sizeStr[..i]
      else
        sizeStr[..i + 2]
  }

  /** The three cases of the truncation rule, by the first '.'. */
  lemma RenderValueCases(sizeStr: string, i: nat)
    requires i + 1 < |sizeStr| && sizeStr[i] == '.' && '.' !in sizeStr[..i]
    ensures sizeStr[i + 1] == '0' ==> RenderValue(sizeStr) == sizeStr[..i]
    ensures sizeStr[i + 1] != '0' ==> RenderValue(sizeStr) == sizeStr[..i + 2]
  {
  }

  /** The rule on a decimal written as its integer digits, '.', and its
      fraction digits: truncation to one digit, never rounding. */
  lemma RenderValueDecimal(integral: string, fraction: string)
    requires '.' !in integral && |fraction| >= 1
    ensures DotNotLast(integral + "." + fraction)
    ensures RenderValue(integral + "." + fraction) ==
      if fraction[0] == '0' then integral else integral + "." + [fraction[0]]
  {
    var s := integral + "." + fraction;
    FindUnique(s, '.', |integral|);
  }

  /** Truncating an already truncated value changes nothing. */
  lemma RenderValueIdempotent(sizeStr: string)
    requires DotNotLast(sizeStr)
    ensures DotNotLast(RenderValue(sizeStr))
    ensures RenderValue(RenderValue(sizeStr)) == RenderValue(sizeStr)
  {
  }

  /** The listing cell `render` builds: the value right-aligned in
      `valueAlignment` columns, one space, then the unit left-aligned in
      `unitAlignment` columns. */
  function Cell(value: string, unit: string, valueAlignment: nat, unitAlignment: nat): (r: string)
    requires |value| <= valueAlignment && |unit| <= unitAlignment
    ensures |r| == valueAlignment + 1 + unitAlignment
    ensures AllSpaces(r[..valueAlignment - |value|])
    ensures r[valueAlignment - |value|..valueAlignment] == value
    ensures r[valueAlignment] == ' '
    ensures r[valueAlignment + 1..valueAlignment + 1 + |unit|] == unit
    ensures AllSpaces(r[valueAlignment + 1 + |unit|..])
  {
    var left := PadLeft(value, valueAlignment);
    var right := PadRight(unit, unitAlignment);
    assert (left + " " + right)[valueAlignment + 1..] == right;
    left + " " + right
  }

  /** `render`: builds the cell with two space-pushing loops around the
      value, a space and the unit, and paints it by tier. `sizeStr` is the
      decimal the f32 formatting of `s.value / 1024.0` produced. Both widths
      must cover what they pad, or the source's subtractions underflow. */
  method Render(s: Size, sizeStr: string, valueAlignment: nat, unitAlignment: nat)
    returns (p: Color.Painted)
    requires DotNotLast(sizeStr)
    requires |RenderValue(sizeStr)| <= valueAlignment
    requires |RenderUnit(s.unit)| <= unitAlignment
    ensures p.role == Paint(s)
    ensures p.text == Cell(RenderValue(sizeStr), RenderUnit(s.unit), valueAlignment, unitAlignment)
  {
    var content := "";
    var value := RenderValue(sizeStr);
    var unit := RenderUnit(s.unit);
    for i := 0 to valueAlignment - |value|
      invariant content == Spaces(i)
    {
      content := content + " ";
    }
    content := content + RenderValue(sizeStr);
    content := content + " ";
    content := content + RenderUnit(s.unit);
    ghost var head := content;
    for i := 0 to unitAlignment - |unit|
      invariant content == head + Spaces(i)
    {
      content := content + " ";
    }
    p := Color.Painted(content, Paint(s));
  }

  /** Worked values: 500000 bytes is Kilo, and 1024 bytes is Kilo with
      stored value 1024, shown as 1. */
  lemma TierExamples()
    ensures FromLen(500000) == Size(500000, Kilo)
    ensures FromLen(1024).value / 1024 == 1
  {
  }

  /** Worked truncation: 500000 bytes shows as "488.28125" before the rule
      and "488.2" after it. */
  lemma RenderValueExample1()
    ensures RenderValue("488.28125") == "488.2"
  {
  }

  /** An exact integer such as "1" is kept as it is. */
  lemma RenderValueExample2()
    ensures RenderValue("1") == "1"
  {
  }

  /** A fraction starting with '0' is dropped: "32.01" shows as "32". */
  lemma RenderValueExample3()
    ensures RenderValue("32.01") == "32"
  {
  }

  /** Truncation, not rounding: "1.99" shows as "1.9". */
  lemma RenderValueExample4()
    ensures RenderValue("1.99") == "1.9"
  {
  }

  /** A Kilo cell showing "1" with widths 6 and 3: five spaces, "1", a
      space, "KB" and one trailing space. */
  lemma CellExample()
    ensures Cell("1", "KB", 6, 3) == "     1 KB "
  {
  }
}
