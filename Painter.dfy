/**
 * Layout and paint coordinates of `codeToImage`: the canvas size, and the
 * text draw commands the paint loop issues, one per span, in order. The
 * canvas itself (background path, fill, font smoothing, PNG encoding) is
 * not modelled; `measure` stands for the canvas's `measureText(...).width`.
 */
module Painter {
  import opened Metrics
  import opened Palette
  import opened Spans
  import Wrapper

  /** `fillStyle = color` followed by `fillText(text, x, y)`. */
  datatype Draw = Draw(text: string, color: Color, x: real, y: real)

  /** The canvas size and the draw commands, in the order they are issued. */
  datatype Picture = Picture(width: real, height: real, draws: seq<Draw>)

  /** The canvas is 120 estimated characters wide, with the padding on both sides. */
  function CanvasWidth(): (w: real)
    ensures w == Padding + MaxCharsPerLine as real * CharWidth + Padding
  {
    MaxContentWidth + Padding * 2.0
  }

  /**
   * The canvas is exactly tall enough for `lineCount` lines: every baseline
   * lies at least the padding above the bottom, the last one exactly.
   */
  function CanvasHeight(lineCount: nat): (h: real)
    ensures forall i :: 0 <= i < lineCount ==> Baseline(i) + Padding <= h
    ensures lineCount > 0 ==> h == Baseline(lineCount - 1) + Padding
    ensures lineCount == 0 ==> h == Padding * 2.0
  {
    lineCount as real * LineHeight + Padding * 2.0
  }

  /** The baseline of display line `i`: the first one line height below the top padding, then one line height apart. */
  function Baseline(i: nat): (y: real)
    ensures y >= Padding + LineHeight
    ensures i > 0 ==> y == Baseline(i - 1) + LineHeight
  {
    Padding + (i + 1) as real * LineHeight
  }

  /** Where a display line's first span is drawn: after the padding and, if any, the indent. */
  function LineStart(line: WrappedLine): (x: real)
    ensures x == Padding + line.indent as real * CharWidth
  {
    if line.indent > 0 then Padding + line.indent as real * CharWidth else Padding
  }

  /** Spans drawn left to right from `x` on baseline `y`, each advancing by its measured width. */
  function DrawsFrom(spans: seq<ColorSpan>, x: real, y: real, measure: string -> Width): (ds: seq<Draw>)
    ensures |ds| == |spans|
  {
    if spans == [] then []
    else [Draw(spans[0].text, spans[0].color, x, y)] + DrawsFrom(spans[1..], x + measure(spans[0].text), y, measure)
  }

  function LineDraws(line: WrappedLine, i: nat, measure: string -> Width): seq<Draw>
  {
    DrawsFrom(line.spans, LineStart(line), Baseline(i), measure)
  }

  /** The draws of display lines `lines`, the first one being display line `from`. */
  function AllDraws(lines: seq<WrappedLine>, from: nat, measure: string -> Width): seq<Draw>
    decreases |lines|
  {
    if lines == [] then [] else LineDraws(lines[0], from, measure) + AllDraws(lines[1..], from + 1, measure)
  }

  /** The coloured text drawn. */
  function DrawnGlyphs(draws: seq<Draw>): seq<Glyph>
  {
    if draws == [] then [] else Paint(draws[0].text, draws[0].color) + DrawnGlyphs(draws[1..])
  }

  // ---------------------------------------------------------------------
  // The coordinates of a line's draws.
  // ---------------------------------------------------------------------

  /**
   * Span `k` of `spans` drawn from `x` is drawn with its own text and
   * colour, on baseline `y`, at `x` plus the measured widths of the spans
   * before it.
   */
  lemma {:induction false} DrawsFromAt(spans: seq<ColorSpan>, x: real, y: real, measure: string -> Width)
    ensures forall k :: 0 <= k < |spans| ==>
      var d := DrawsFrom(spans, x, y, measure)[k];
      d.text == spans[k].text && d.color == spans[k].color && d.y == y
    ensures spans != [] ==> DrawsFrom(spans, x, y, measure)[0].x == x
    ensures forall k :: 0 < k < |spans| ==>
      DrawsFrom(spans, x, y, measure)[k].x == DrawsFrom(spans, x, y, measure)[k - 1].x + measure(spans[k - 1].text)
  {
    if spans != [] {
      var rest := DrawsFrom(spans[1..], x + measure(spans[0].text), y, measure);
      DrawsFromAt(spans[1..], x + measure(spans[0].text), y, measure);
      var ds := DrawsFrom(spans, x, y, measure);
      assert ds[1..] == rest;
      forall k | 0 < k < |spans|
        ensures ds[k].x == ds[k - 1].x + measure(spans[k - 1].text)
      {
        assert ds[k] == rest[k - 1];
        if k > 1 {
          assert ds[k - 1] == rest[k - 2];
        }
      }
    }
  }

  /**
   * On a laid-out display line, every span is drawn at the padding plus the
   * start the wrapper gave it.
   */
  lemma DrawnAtStarts(lines: seq<WrappedLine>, indent: nat, measure: string -> Width, i: nat, y: real)
    requires Wrapper.Laid(lines, indent, measure) && i < |lines|
    ensures forall k :: 0 <= k < |lines[i].spans| ==>
      DrawsFrom(lines[i].spans, LineStart(lines[i]), y, measure)[k].x == Padding + lines[i].spans[k].start
  {
    var sp := lines[i].spans;
    var ds := DrawsFrom(sp, LineStart(lines[i]), y, measure);
    DrawsFromAt(sp, LineStart(lines[i]), y, measure);
    assert Wrapper.Chained(sp, Wrapper.Base(i, indent), measure);
    forall k | 0 <= k < |sp|
      ensures ds[k].x == Padding + sp[k].start
    {
      DrawnAtStart(sp, ds, Padding, Wrapper.Base(i, indent), measure, k);
    }
  }

  lemma {:induction false} DrawnAtStart(sp: seq<ColorSpan>, ds: seq<Draw>, offset: real, base: real, measure: string -> Width, k: nat)
    requires Wrapper.Chained(sp, base, measure) && k < |sp| == |ds|
    requires ds[0].x == offset + base
    requires forall j :: 0 < j < |sp| ==> ds[j].x == ds[j - 1].x + measure(sp[j - 1].text)
    ensures ds[k].x == offset + sp[k].start
  {
    if k > 0 {
      DrawnAtStart(sp, ds, offset, base, measure, k - 1);
    }
  }

  lemma {:induction false} StartsAfterBase(sp: seq<ColorSpan>, base: real, measure: string -> Width, k: nat)
    requires Wrapper.Chained(sp, base, measure) && k < |sp|
    ensures sp[k].start >= base
  {
    if k > 0 {
      StartsAfterBase(sp, base, measure, k - 1);
    }
  }

  /**
   * Every draw of a laid-out display line lies inside the canvas padding:
   * it starts after the left padding, its baseline is between the top and
   * bottom padding, and on a line of several spans it ends before the
   * right padding.
   */
  lemma DrawsInsideCanvas(lines: seq<WrappedLine>, indent: nat, measure: string -> Width, i: nat, k: nat)
    requires Wrapper.Laid(lines, indent, measure) && i < |lines| && k < |lines[i].spans|
    ensures var d := LineDraws(lines[i], i, measure)[k];
      && Padding <= d.x
      && Padding + LineHeight <= d.y <= CanvasHeight(|lines|) - Padding
      && (|lines[i].spans| > 1 ==> d.x + measure(d.text) <= CanvasWidth() - Padding)
  {
    var sp := lines[i].spans;
    var d := LineDraws(lines[i], i, measure)[k];
    DrawnAtStarts(lines, indent, measure, i, Baseline(i));
    DrawsFromAt(sp, LineStart(lines[i]), Baseline(i), measure);
    assert Wrapper.Chained(sp, Wrapper.Base(i, indent), measure);
    StartsAfterBase(sp, Wrapper.Base(i, indent), measure, k);
    assert d.x == Padding + sp[k].start && d.text == sp[k].text && d.y == Baseline(i);
    Wrapper.OverWideAlone(lines, indent, measure, i);
  }

  // ---------------------------------------------------------------------
  // Across lines: every display line is a block of draws on its own
  // baseline, and exactly the laid-out coloured text is drawn.
  // ---------------------------------------------------------------------

  lemma AllDrawsCons(lines: seq<WrappedLine>, from: nat, measure: string -> Width)
    requires lines != []
    ensures AllDraws(lines, from, measure) == LineDraws(lines[0], from, measure) + AllDraws(lines[1..], from + 1, measure)
  {
  }

  lemma Assoc(a: seq<Draw>, b: seq<Draw>, c: seq<Draw>)
    ensures a + (b + c) == a + b + c
  {
  }

  lemma {:induction false} AllDrawsSnoc(lines: seq<WrappedLine>, line: WrappedLine, from: nat, measure: string -> Width)
    ensures AllDraws(lines + [line], from, measure) == AllDraws(lines, from, measure) + LineDraws(line, from + |lines|, measure)
    decreases |lines|
  {
    var all := lines + [line];
    AllDrawsCons(all, from, measure);
    if lines == [] {
      assert all[0] == line && AllDraws(all[1..], from + 1, measure) == [];
    } else {
      var head, tail := LineDraws(lines[0], from, measure), AllDraws(lines[1..], from + 1, measure);
      assert all[0] == lines[0] && all[1..] == lines[1..] + [line];
      AllDrawsSnoc(lines[1..], line, from + 1, measure);
      AllDrawsCons(lines, from, measure);
      Assoc(head, tail, LineDraws(line, from + |lines|, measure));
    }
  }

  /** The draws of two runs of display lines, the second numbered on from the first. */
  lemma {:induction false} AllDrawsAppend(a: seq<WrappedLine>, b: seq<WrappedLine>, from: nat, measure: string -> Width)
    ensures AllDraws(a + b, from, measure) == AllDraws(a, from, measure) + AllDraws(b, from + |a|, measure)
    decreases |a|
  {
    if a == [] {
      assert a + b == b;
    } else {
      var ab := a + b;
      AllDrawsCons(ab, from, measure);
      assert ab[0] == a[0] && ab[1..] == a[1..] + b;
      AllDrawsAppend(a[1..], b, from + 1, measure);
      AllDrawsCons(a, from, measure);
      Assoc(LineDraws(a[0], from, measure), AllDraws(a[1..], from + 1, measure), AllDraws(b, from + |a|, measure));
    }
  }

  /** The draws of display line `i` form one block, after those of the lines before it, on baseline `from + i`. */
  lemma AllDrawsBlock(lines: seq<WrappedLine>, from: nat, i: nat, measure: string -> Width)
    requires i < |lines|
    ensures AllDraws(lines, from, measure)
         == AllDraws(lines[..i], from, measure) + LineDraws(lines[i], from + i, measure) + AllDraws(lines[i + 1..], from + i + 1, measure)
  {
    var rest := lines[i..];
    assert lines == lines[..i] + rest;
    AllDrawsAppend(lines[..i], rest, from, measure);
    AllDrawsCons(rest, from + i, measure);
    assert rest[0] == lines[i] && rest[1..] == lines[i + 1..];
    Assoc(AllDraws(lines[..i], from, measure), LineDraws(lines[i], from + i, measure), AllDraws(lines[i + 1..], from + i + 1, measure));
  }

  lemma {:induction false} DrawnGlyphsAppend(a: seq<Draw>, b: seq<Draw>)
    ensures DrawnGlyphs(a + b) == DrawnGlyphs(a) + DrawnGlyphs(b)
  {
    if a == [] {
      assert a + b == b;
    } else {
      assert (a + b)[1..] == a[1..] + b;
      DrawnGlyphsAppend(a[1..], b);
    }
  }

  lemma {:induction false} DrawsFromGlyphs(spans: seq<ColorSpan>, x: real, y: real, measure: string -> Width)
    ensures DrawnGlyphs(DrawsFrom(spans, x, y, measure)) == Glyphs(spans)
  {
    if spans != [] {
      DrawsFromGlyphs(spans[1..], x + measure(spans[0].text), y, measure);
      GlyphsAppend([spans[0]], spans[1..]);
      assert [spans[0]] + spans[1..] == spans;
      assert Glyphs([spans[0]]) == Paint(spans[0].text, spans[0].color);
    }
  }

  /** Exactly the coloured text of the display lines is drawn, in order. */
  lemma {:induction false} AllDrawsGlyphs(lines: seq<WrappedLine>, from: nat, measure: string -> Width)
    ensures DrawnGlyphs(AllDraws(lines, from, measure)) == Glyphs(AllSpans(lines))
    decreases |lines|
  {
    if lines != [] {
      var head, tail := LineDraws(lines[0], from, measure), AllDraws(lines[1..], from + 1, measure);
      assert AllDraws(lines, from, measure) == head + tail;
      AllDrawsGlyphs(lines[1..], from + 1, measure);
      DrawnGlyphsAppend(head, tail);
      DrawsFromGlyphs(lines[0].spans, LineStart(lines[0]), Baseline(from), measure);
      assert [lines[0]] + lines[1..] == lines;
      AllSpansCons(lines[0], lines[1..]);
      GlyphsAppend(lines[0].spans, AllSpans(lines[1..]));
    }
  }

  lemma DrawsFromNext(spans: seq<ColorSpan>, k: nat, x: real, y: real, measure: string -> Width)
    requires k < |spans|
    ensures DrawsFrom(spans[k..], x, y, measure)
         == [Draw(spans[k].text, spans[k].color, x, y)] + DrawsFrom(spans[k + 1..], x + measure(spans[k].text), y, measure)
  {
    assert spans[k..][1..] == spans[k + 1..];
  }

  lemma DrawsRegroup(a: seq<Draw>, d: Draw, b: seq<Draw>)
    ensures a + ([d] + b) == a + [d] + b
  {
  }

  // ---------------------------------------------------------------------
  // The paint loop.
  // ---------------------------------------------------------------------

  /**
   * The canvas size, then for every display line its baseline and its
   * start, and for every span a draw at the running `x`, which advances by
   * the span's measured width.
   */
  method PaintLines(wrappedLines: seq<WrappedLine>, measure: string -> Width) returns (picture: Picture)
    ensures picture == Picture(CanvasWidth(), CanvasHeight(|wrappedLines|), AllDraws(wrappedLines, 0, measure))
  {
    var width := MaxContentWidth + Padding * 2.0;
    var height := |wrappedLines| as real * LineHeight + Padding * 2.0;
    var draws: seq<Draw> := [];
    for lineIndex := 0 to |wrappedLines|
      invariant draws == AllDraws(wrappedLines[..lineIndex], 0, measure)
    {
      draws := DrawLine(draws, wrappedLines[lineIndex], lineIndex, measure);
      AllDrawsSnoc(wrappedLines[..lineIndex], wrappedLines[lineIndex], 0, measure);
      assert wrappedLines[..lineIndex + 1] == wrappedLines[..lineIndex] + [wrappedLines[lineIndex]];
    }
    assert wrappedLines[..|wrappedLines|] == wrappedLines;
    picture := Picture(width, height, draws);
  }

  /**
   * One display line of the paint loop: its baseline and start, then a draw
   * per span at the running `x`.
   */
  method DrawLine(draws: seq<Draw>, line: WrappedLine, lineIndex: nat, measure: string -> Width) returns (draws': seq<Draw>)
    ensures draws' == draws + LineDraws(line, lineIndex, measure)
  {
    draws' := draws;
    var y := Padding + (lineIndex + 1) as real * LineHeight;
    var x := Padding;
    if line.indent > 0 {
      x := x + line.indent as real * CharWidth;
    }
    assert line.spans[0..] == line.spans;
    for k := 0 to |line.spans|
      invariant draws' + DrawsFrom(line.spans[k..], x, y, measure) == draws + LineDraws(line, lineIndex, measure)
    {
      var span := line.spans[k];
      DrawsFromNext(line.spans, k, x, y, measure);
      DrawsRegroup(draws', Draw(span.text, span.color, x, y), DrawsFrom(line.spans[k + 1..], x + measure(span.text), y, measure));
      draws' := draws' + [Draw(span.text, span.color, x, y)];
      x := x + measure(span.text);
    }
  }
}
