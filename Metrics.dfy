/**
 * Layout metrics of one rendering. The source derives them from a scale of
 * 2 and a 14-pixel font; they are written out here as the values those
 * formulas give, so that multiplying by them stays linear arithmetic, and
 * `Derivation` checks each against its formula.
 */
module Metrics {

  /** A measured text width in pixels. */
  type Width = w: real | 0.0 <= w

  const Scale: nat := 2
  const FontSize: nat := 28
  const LineHeight: real := 42.0
  const Padding: real := 48.0
  const BorderRadius: real := 24.0
  const MaxCharsPerLine: nat := 120
  /** The estimated width of one character, used to reseed indentation. */
  const CharWidth: real := 16.8
  const MaxContentWidth: real := 2016.0

  /** Each metric is the value of its formula in the source. */
  lemma Derivation()
    ensures FontSize == 14 * Scale
    ensures LineHeight == FontSize as real * 1.5
    ensures Padding == (24 * Scale) as real
    ensures BorderRadius == (12 * Scale) as real
    ensures CharWidth == FontSize as real * 0.6
    ensures MaxContentWidth == MaxCharsPerLine as real * CharWidth
  {
  }
}
