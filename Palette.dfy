/** The fixed One Dark palette keyed by highlighter token class (`colorMap`). */
module Palette {
  import opened Wrappers

  /** A colour as the canvas fill style receives it, `#RRGGBB`. */
  type Color = string

  /** The colour of plain text and of classes the palette does not know. */
  const DefaultColor: Color := "#ABB2BF"

  const ColorMap: map<string, Color> := map[
    "hljs-keyword" := "#C678DD",
    "hljs-string" := "#98C379",
    "hljs-number" := "#D19A66",
    "hljs-comment" := "#5C6370",
    "hljs-function" := "#61AFEF",
    "hljs-title" := "#61AFEF",
    "hljs-params" := "#ABB2BF",
    "hljs-built_in" := "#E6C07B",
    "hljs-literal" := "#56B6C2",
    "hljs-type" := "#E6C07B",
    "hljs-meta" := "#ABB2BF",
    "hljs-operator" := "#56B6C2",
    "hljs-property" := "#E06C75",
    "hljs-variable" := "#E06C75"
  ]

  predicate IsHexDigit(c: char)
  {
    ('0' <= c <= '9') || ('A' <= c <= 'F')
  }

  predicate IsHexColor(c: Color)
  {
    |c| == 7 && c[0] == '#' && forall i :: 1 <= i < 7 ==> IsHexDigit(c[i])
  }

  /**
   * The colour of a match: the palette entry of its class when the palette
   * has one, the default colour for an unknown class and for plain text.
   */
  function ColorOf(cls: Option<string>): (c: Color)
    ensures IsHexColor(c)
    ensures cls.Some? && cls.value in ColorMap ==> c == ColorMap[cls.value]
    ensures cls.None? || cls.value !in ColorMap ==> c == DefaultColor
  {
    match cls
    case Some(name) => if name in ColorMap then ColorMap[name] else DefaultColor
    case None => DefaultColor
  }
}
