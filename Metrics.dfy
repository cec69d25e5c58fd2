/** The per-character record of the renderer and its 128-slot table. */
module Metrics {

  /** Number of slots in the character table; a slot is indexed directly
      by the character code, so only codes 0..127 are valid. */
  const TableSize: int := 128

  /** A quotient the renderer stores as a float, kept as the exact pair it
      divides: `num / den`. */
  datatype Ratio = Ratio(num: int, den: int)

  /** Metrics of one character, as recorded when the atlas is built. */
  datatype Character = Character(
    ax: int,     // horizontal advance, whole pixels
    ay: int,     // vertical advance, whole pixels
    bw: int,     // bitmap width
    bh: int,     // bitmap height
    bl: int,     // bitmap left bearing
    bt: int,     // bitmap top bearing
    tx: Ratio,   // x offset of the glyph in the atlas, over the atlas width
    ty: Ratio    // y offset of the glyph in the atlas, over the atlas height
  )

  /** Every character of `text` has a code that indexes the table. */
  predicate Ascii(text: string)
  {
    forall i :: 0 <= i < |text| ==> text[i] as int < TableSize
  }

  /** The value-initialised record every slot starts with; its zero advance
      is what the draw loop takes to mean "nothing to draw". */
  const Zero: Character := Character(0, 0, 0, 0, 0, 0, Ratio(0, 1), Ratio(0, 1))

  /** The table as value-initialised: every slot is `Zero`. */
  function Blank(): (t: seq<Character>)
    ensures |t| == TableSize
    ensures forall c :: 0 <= c < TableSize ==> t[c].ax == 0
  {
    seq(TableSize, _ => Zero)
  }
}
