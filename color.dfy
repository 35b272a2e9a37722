/** Colour roles of the listing palette. The palette itself (which ANSI style
    each role maps to) is not modelled: a rendered cell is its plain text
    together with the role it would be painted with. */
module Color {

  /** The semantic elements the size and owner columns are painted with. */
  datatype Elem = User | Group | FileSmall | FileMedium | FileLarge

  /** A cell of the listing: the padded text and the role that paints it. */
  datatype Painted = Painted(text: string, role: Elem)
}
