/** `renderValue`: how one byte, or a cell past the end of the data, is displayed. */
module ByteRender {

  import opened Wrappers
  import opened Hex

  /** An element of the edited `Uint8Array`. */
  newtype byte = x: int | 0 <= x < 256

  /**
    A rendered cell: the text of its hex input (`None` for the source's `null`,
    which disables the input) and the glyph shown in the UTF-8 lane.
  */
  datatype Cell = Cell(hex: Option<string>, glyph: string)

  /** The glyph of a cell past the end of the data (an empty-set sign). */
  const Placeholder: string := "\U{2205}"

  /** The glyph of a byte outside the printable ASCII range. */
  const NonPrintable: string := "."

  predicate IsPrintable(b: byte) {
    32 <= b <= 126
  }

  /**
    `renderValue`: a byte becomes its two-digit upper-case hex text and its
    glyph; a position past the end becomes no text and the placeholder.
    RenderValueSpec states what the text and glyph are.
  */
  function RenderValue(b: Option<byte>): (c: Cell)
    ensures c.hex.None? <==> b.None?
  {
    match b
    case None => Cell(None, Placeholder)
    case Some(x) =>
      Cell(Some(HexString(x as nat, 2)), if IsPrintable(x) then [x as int as char] else NonPrintable)
  }

  /**
    A present byte shows exactly two upper-case hex digits that parse back to
    it and a one-character glyph: the byte's own character when printable,
    "." otherwise; an absent one shows the placeholder.
  */
  lemma RenderValueSpec(b: Option<byte>)
    ensures var c := RenderValue(b);
      && (b.None? ==> c.hex.None? && c.glyph == Placeholder)
      && (b.Some? ==>
        && c.hex.Some?
        && |c.hex.value| == 2 && AllUpperHex(c.hex.value)
        && ParseHex(c.hex.value) == b.value as int
        && |c.glyph| == 1
        && (IsPrintable(b.value) ==> c.glyph[0] as int == b.value as int)
        && (!IsPrintable(b.value) ==> c.glyph == NonPrintable))
  {
    if b.Some? {
      HexStringSpec(b.value as nat, 2);
      assert Pow16(2) == 256;
    }
  }

  /** Two bytes render alike only if they are equal. */
  lemma RenderValueInjective(x: byte, y: byte)
    requires RenderValue(Some(x)) == RenderValue(Some(y))
    ensures x == y
  {
    RenderValueSpec(Some(x));
    RenderValueSpec(Some(y));
  }
}
