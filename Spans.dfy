/**
 * The values passed between the stages: coloured spans (`ColorSpan`), the
 * display lines the wrapper builds from them (`WrappedLine`), and the
 * coloured-character view in which "no text is lost or recoloured" is
 * stated.
 */
module Spans {
  import opened Palette

  /**
   * A run of text in one colour. Out of the parser `start` is a character
   * offset within the source line; out of the wrapper it is a pixel offset
   * within the display line.
   */
  datatype ColorSpan = ColorSpan(text: string, color: Color, start: real)

  /** One display line; `indent` counts leading whitespace characters to reapply. */
  datatype WrappedLine = WrappedLine(spans: seq<ColorSpan>, indent: nat)

  /** One character together with the colour it is drawn in. */
  datatype Glyph = Glyph(ch: char, color: Color)

  /** `s`, every character coloured `c`. */
  function Paint(s: string, c: Color): (g: seq<Glyph>)
    ensures |g| == |s|
    ensures forall i :: 0 <= i < |s| ==> g[i] == Glyph(s[i], c)
  {
    seq(|s|, i requires 0 <= i < |s| => Glyph(s[i], c))
  }

  /** Concatenation of coloured text regroups freely. */
  lemma Regroup(a: seq<Glyph>, b: seq<Glyph>, c: seq<Glyph>)
    ensures a + (b + c) == a + b + c
  {
  }

  lemma PaintAppend(a: string, b: string, c: Color)
    ensures Paint(a + b, c) == Paint(a, c) + Paint(b, c)
  {
  }

  /** The characters of a glyph sequence, without their colours. */
  function Chars(g: seq<Glyph>): (s: string)
    ensures |s| == |g|
    ensures forall i :: 0 <= i < |g| ==> s[i] == g[i].ch
  {
    seq(|g|, i requires 0 <= i < |g| => g[i].ch)
  }

  /** The concatenated text of spans. */
  function Texts(spans: seq<ColorSpan>): string
  {
    if spans == [] then [] else Texts(spans[..|spans| - 1]) + spans[|spans| - 1].text
  }

  /** The concatenated coloured text of spans. */
  function Glyphs(spans: seq<ColorSpan>): (g: seq<Glyph>)
    ensures Chars(g) == Texts(spans)
  {
    if spans == [] then []
    else
      var last := spans[|spans| - 1];
      var g := Glyphs(spans[..|spans| - 1]) + Paint(last.text, last.color);
      assert Chars(g) == Chars(Glyphs(spans[..|spans| - 1])) + last.text;
      g
  }

  /** The spans of a sequence of display lines, in order. */
  function AllSpans(lines: seq<WrappedLine>): seq<ColorSpan>
  {
    if lines == [] then [] else AllSpans(lines[..|lines| - 1]) + lines[|lines| - 1].spans
  }

  lemma {:induction false} GlyphsAppend(a: seq<ColorSpan>, b: seq<ColorSpan>)
    ensures Glyphs(a + b) == Glyphs(a) + Glyphs(b)
    decreases |b|
  {
    if b == [] {
      assert a + b == a;
    } else {
      var b', last := b[..|b| - 1], b[|b| - 1];
      assert (a + b)[..|a + b| - 1] == a + b';
      assert (a + b)[|a + b| - 1] == last;
      GlyphsAppend(a, b');
      assert Glyphs(a + b) == Glyphs(a + b') + Paint(last.text, last.color);
      assert Glyphs(b) == Glyphs(b') + Paint(last.text, last.color);
    }
  }

  lemma {:induction false} AllSpansCons(line: WrappedLine, lines: seq<WrappedLine>)
    ensures AllSpans([line] + lines) == line.spans + AllSpans(lines)
    decreases |lines|
  {
    if lines != [] {
      var init := lines[..|lines| - 1];
      assert ([line] + lines)[..|lines|] == [line] + init;
      AllSpansCons(line, init);
    }
  }

  lemma {:induction false} AllSpansAppend(a: seq<WrappedLine>, b: seq<WrappedLine>)
    ensures AllSpans(a + b) == AllSpans(a) + AllSpans(b)
    decreases |b|
  {
    if b == [] {
      assert a + b == a;
    } else {
      assert (a + b)[..|a + b| - 1] == a + b[..|b| - 1];
      AllSpansAppend(a, b[..|b| - 1]);
    }
  }

  /** The coloured text of several buckets, one after the other. */
  function FlatGlyphs(buckets: seq<seq<ColorSpan>>): seq<Glyph>
  {
    if buckets == [] then [] else FlatGlyphs(buckets[..|buckets| - 1]) + Glyphs(buckets[|buckets| - 1])
  }

  /** Coloured lines, one after the other. */
  function Flatten(L: seq<seq<Glyph>>): seq<Glyph>
  {
    if L == [] then [] else Flatten(L[..|L| - 1]) + L[|L| - 1]
  }

  /** Buckets that hold the lines `L` hold their text. */
  lemma {:induction false} FlatGlyphsFlatten(buckets: seq<seq<ColorSpan>>, L: seq<seq<Glyph>>)
    requires |buckets| == |L| && forall j :: 0 <= j < |L| ==> Glyphs(buckets[j]) == L[j]
    ensures FlatGlyphs(buckets) == Flatten(L)
  {
    if L != [] {
      FlatGlyphsFlatten(buckets[..|buckets| - 1], L[..|L| - 1]);
    }
  }
}
