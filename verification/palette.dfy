/** The fixed palette: colours are the indices 0 .. MaxColors-1, and one
    sentinel marks a node that has no colour yet. */
module Palette {

  /** Number of palette colours (MAX_COLORS in the source). */
  const MaxColors: int := 3

  /** The colour slot of a node that has not been coloured (drawn grey). */
  const Uncoloured: int := -1

  /** A real palette colour. */
  predicate IsColour(c: int) {
    0 <= c < MaxColors
  }

  /** A value a node's colour slot may hold: a palette colour or the sentinel. */
  predicate IsSlot(c: int) {
    c == Uncoloured || IsColour(c)
  }
}
