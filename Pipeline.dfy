/**
 * `codeToImage` from the highlighter's markup on: parse the markup into
 * one bucket of coloured spans per source line, wrap the buckets into
 * display lines, and lay out and paint them.
 */
module Pipeline {
  import opened Wrappers
  import opened Metrics
  import opened Spans
  import opened Scanner
  import opened Parser
  import opened Wrapper
  import opened Painter

  /** The picture for source `code` and its markup `html`, or the parser's error. */
  function Rendered(code: string, html: string, mode: Mode, measure: string -> Width): Result<Picture, ParseError>
  {
    match Parsed(code, html, mode)
    case Err(e) => Err(e)
    case Ok(buckets) =>
      var lines := WrapAll(buckets, measure);
      Ok(Picture(CanvasWidth(), CanvasHeight(|lines|), AllDraws(lines, 0, measure)))
  }

  /** The three stages in turn; an error of the parser ends the rendering. */
  method CodeToImage(code: string, html: string, mode: Mode, measure: string -> Width) returns (r: Result<Picture, ParseError>)
    ensures r == Rendered(code, html, mode, measure)
  {
    var parsed := Parse(code, html, mode);
    if parsed.Err? {
      return Err(parsed.error);
    }
    var wrappedLines := Wrap(parsed.value, measure);
    var picture := PaintLines(wrappedLines, measure);
    return Ok(picture);
  }

  /**
   * End to end, in either mode: for markup emitted from well-formed tokens
   * by `Emit`, whose text is the source code and whose highlighted content
   * the mode's `.` accepts (as written: no line terminator inside a
   * highlighted token), rendering succeeds and draws exactly the source's
   * characters except its line breaks, in order, each in its token's colour.
   */
  lemma RenderReadable(code: string, ts: seq<Token>, mode: Mode, measure: string -> Width)
    requires WellFormed(ts) && Readable(ts, mode) && Chars(TokenGlyphs(ts)) == code
    ensures Rendered(code, Emit(ts), mode, measure).Ok?
    ensures DrawnGlyphs(Rendered(code, Emit(ts), mode, measure).value.draws) == NoBreaks(TokenGlyphs(ts))
  {
    ParseTokens(code, ts, mode);
    var buckets := Parsed(code, Emit(ts), mode).value;
    var lines := WrapAll(buckets, measure);
    AllDrawsGlyphs(lines, 0, measure);
    WrapAllLossless(buckets, measure);
    FlatGlyphsFlatten(buckets, GlyphLines(TokenGlyphs(ts)));
    FlattenGlyphLines(TokenGlyphs(ts));
  }

  /**
   * End to end, with content allowed to span lines: every well-formed token
   * sequence whose text is the source code renders exactly the source's
   * characters except its line breaks, in order, each in its token's colour.
   */
  lemma RenderTokens(code: string, ts: seq<Token>, measure: string -> Width)
    requires WellFormed(ts) && Chars(TokenGlyphs(ts)) == code
    ensures Rendered(code, Emit(ts), DotAll, measure).Ok?
    ensures DrawnGlyphs(Rendered(code, Emit(ts), DotAll, measure).value.draws) == NoBreaks(TokenGlyphs(ts))
  {
    assert Readable(ts, DotAll);
    RenderReadable(code, ts, DotAll, measure);
  }
}
