/** The records the diagram generator passes between its stages: the
    fields a spec names, the rendering options, and the placed records the
    layout pass produces for the renderer. */
module Fields {

  /** A field length in bits: the parser rejects anything below one. */
  type Length = n: int | n >= 1 witness 1

  /** One `name:bits` entry of a spec: the label and the bit length. */
  datatype Field = Field(text: string, len: Length)

  /** Which glyph set borders are drawn with. */
  datatype Charset = Ascii | Unicode

  /** The rendering settings of one diagram. The five characters are the
      ASCII border glyphs (`startchar`, `endchar`, `oddchar`, `evenchar`,
      `sepchar`); the Unicode glyph set is fixed. */
  datatype Options = Options(
    bitsPerLine: int,
    printTens: bool,
    printUnits: bool,
    charset: Charset,
    startChar: char,
    endChar: char,
    oddChar: char,
    evenChar: char,
    sepChar: char)

  /** The settings a diagram starts from before its options are applied:
      32 bits per row, both rulers, ASCII `+`, `+`, `+`, `-`, `|`. */
  const DefaultOptions: Options :=
    Options(32, true, true, Ascii, '+', '+', '+', '-', '|')

  predicate ValidOptions(o: Options)
  {
    o.bitsPerLine >= 1
  }

  /** A field, or a fragment of one, assigned to a diagram row: `line` is
      the 1-based row, `start`..`end` the bit columns it occupies, and
      `moreFragments` marks a fragment whose remainder opens the next row.
      A block record (a field that starts a row and is an exact multiple of
      the row width) keeps its whole length but spans only the columns
      `0`..`bitsPerLine-1`. */
  datatype Placed = Placed(
    text: string,
    len: int,
    moreFragments: bool,
    start: int,
    end: int,
    line: int)
}
