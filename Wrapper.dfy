/**
 * The greedy line wrapper of `codeToImage`: every bucket of coloured spans
 * (one source line) becomes one or more display lines no wider than the
 * content width. Each span is cut into words on its own, so a line breaks
 * only between words: between whitespace and non-whitespace runs, or where
 * one span ends and the next begins. Continuation lines are indented like
 * the source line.
 */
module Wrapper {
  import opened Text
  import opened Metrics
  import opened Palette
  import opened Spans

  // ---------------------------------------------------------------------
  // Words: the non-empty pieces of `text.split(/(\s+)/)`, which are the
  // maximal runs of whitespace and of non-whitespace.
  // ---------------------------------------------------------------------

  /** The length of the longest prefix of `s` whose characters are all whitespace (`space`) or all not. */
  function RunFrom(s: string, space: bool): (n: nat)
    ensures n <= |s|
    ensures forall i :: 0 <= i < n ==> IsSpace(s[i]) == space
    ensures n < |s| ==> IsSpace(s[n]) != space
  {
    if s == [] || IsSpace(s[0]) != space then 0 else 1 + RunFrom(s[1..], space)
  }

  /** The length of the match of `/^\s+/`, 0 when there is none. */
  function LeadingSpace(s: string): (n: nat)
    ensures n <= |s|
    ensures forall i :: 0 <= i < n ==> IsSpace(s[i])
    ensures n < |s| ==> !IsSpace(s[n])
  {
    RunFrom(s, true)
  }

  /** All characters of `r` are whitespace, or none is. */
  predicate Uniform(r: string)
  {
    forall i :: 0 <= i < |r| ==> IsSpace(r[i]) == IsSpace(r[0])
  }

  /** The maximal whitespace and non-whitespace runs of `s`, in order. */
  function Runs(s: string): (rs: seq<string>)
    ensures forall i :: 0 <= i < |rs| ==> rs[i] != [] && Uniform(rs[i])
    decreases |s|
  {
    if s == [] then []
    else
      var n := RunFrom(s, IsSpace(s[0]));
      [s[..n]] + Runs(s[n..])
  }

  function Concat(rs: seq<string>): string
  {
    if rs == [] then [] else rs[0] + Concat(rs[1..])
  }

  /** Splitting into runs loses nothing. */
  lemma {:induction false} ConcatRuns(s: string)
    ensures Concat(Runs(s)) == s
    decreases |s|
  {
    if s != [] {
      var n := RunFrom(s, IsSpace(s[0]));
      ConcatRuns(s[n..]);
      assert Runs(s)[1..] == Runs(s[n..]);
      assert s[..n] + s[n..] == s;
    }
  }

  /** Neighbouring runs are of different kinds, so every run is maximal. */
  lemma {:induction false} RunsAlternate(s: string)
    ensures forall i :: 0 <= i < |Runs(s)| - 1 ==> IsSpace(Runs(s)[i][0]) != IsSpace(Runs(s)[i + 1][0])
    decreases |s|
  {
    if s != [] {
      var n := RunFrom(s, IsSpace(s[0]));
      var rest := Runs(s[n..]);
      RunsAlternate(s[n..]);
      assert Runs(s)[1..] == rest;
      if rest != [] {
        assert rest[0][0] == s[n];
      }
    }
  }

  /** A word to place: a run of a span's text, in the span's colour. */
  datatype Word = Word(text: string, color: Color)

  /** Texts in one colour, as words. */
  function Colored(rs: seq<string>, c: Color): (ws: seq<Word>)
    ensures |ws| == |rs|
    ensures forall i :: 0 <= i < |rs| ==> ws[i] == Word(rs[i], c)
  {
    seq(|rs|, i requires 0 <= i < |rs| => Word(rs[i], c))
  }

  /** The words of one span. */
  function SpanWords(span: ColorSpan): seq<Word>
  {
    Colored(Runs(span.text), span.color)
  }

  /** The words of a bucket, span after span. */
  function BucketWords(spans: seq<ColorSpan>): seq<Word>
  {
    if spans == [] then [] else BucketWords(spans[..|spans| - 1]) + SpanWords(spans[|spans| - 1])
  }

  /** The coloured text of words. */
  function WordGlyphs(ws: seq<Word>): seq<Glyph>
  {
    if ws == [] then [] else WordGlyphs(ws[..|ws| - 1]) + Paint(ws[|ws| - 1].text, ws[|ws| - 1].color)
  }

  /** The words of laid-out spans, their positions dropped. */
  function WordsOf(spans: seq<ColorSpan>): (ws: seq<Word>)
    ensures |ws| == |spans|
    ensures forall i :: 0 <= i < |spans| ==> ws[i] == Word(spans[i].text, spans[i].color)
  {
    seq(|spans|, i requires 0 <= i < |spans| => Word(spans[i].text, spans[i].color))
  }

  // ---------------------------------------------------------------------
  // Placing words one by one: the wrapper's state as a fold.
  // ---------------------------------------------------------------------

  /** `wrappedLines` of this bucket so far, `currentSpans`, `currentWidth` and `isFirstLine`. */
  datatype Wrapping = Wrapping(out: seq<WrappedLine>, current: seq<ColorSpan>, width: real, first: bool)

  const Fresh: Wrapping := Wrapping([], [], 0.0, true)

  /** The indentation, in characters, of the bucket's first span. */
  function Indent(spans: seq<ColorSpan>): (n: nat)
    ensures spans == [] ==> n == 0
    ensures spans != [] ==> n <= |spans[0].text|
    ensures spans != [] ==> forall i :: 0 <= i < n ==> IsSpace(spans[0].text[i])
    ensures spans != [] && n < |spans[0].text| ==> !IsSpace(spans[0].text[n])
  {
    if spans != [] && spans[0].text != [] then LeadingSpace(spans[0].text) else 0
  }

  /** The current spans closed as a display line: indent 0 on the first one. */
  function Flushed(st: Wrapping, indent: nat): seq<WrappedLine>
  {
    st.out + [WrappedLine(st.current, if st.first then 0 else indent)]
  }

  /**
   * Place one word: when it would pass the content width and the current
   * line holds something, close the line and restart at the indentation
   * width; then put the word at the current width and advance by its width.
   */
  function PlaceWord(st: Wrapping, w: Word, indent: nat, measure: string -> Width): (r: Wrapping)
    ensures r.current != [] && r.current[|r.current| - 1] == ColorSpan(w.text, w.color, r.width - measure(w.text))
    ensures |r.out| == |st.out| + (if st.width + measure(w.text) > MaxContentWidth && st.current != [] then 1 else 0)
  {
    var ww := measure(w.text);
    var st' :=
      if st.width + ww > MaxContentWidth && st.current != [] then
        Wrapping(Flushed(st, indent), [], indent as real * CharWidth, false)
      else st;
    Wrapping(st'.out, st'.current + [ColorSpan(w.text, w.color, st'.width)], st'.width + ww, st'.first)
  }

  function PlaceAll(st: Wrapping, ws: seq<Word>, indent: nat, measure: string -> Width): Wrapping
  {
    if ws == [] then st else PlaceWord(PlaceAll(st, ws[..|ws| - 1], indent, measure), ws[|ws| - 1], indent, measure)
  }

  /** The last line, if it holds anything. */
  function Finish(st: Wrapping, indent: nat): seq<WrappedLine>
  {
    if st.current != [] then Flushed(st, indent) else st.out
  }

  /** The display lines of one bucket. */
  function WrapBucket(spans: seq<ColorSpan>, measure: string -> Width): seq<WrappedLine>
  {
    var indent := Indent(spans);
    Finish(PlaceAll(Fresh, BucketWords(spans), indent, measure), indent)
  }

  /** The display lines of all buckets, in order. */
  function WrapAll(buckets: seq<seq<ColorSpan>>, measure: string -> Width): seq<WrappedLine>
  {
    if buckets == [] then [] else WrapAll(buckets[..|buckets| - 1], measure) + WrapBucket(buckets[|buckets| - 1], measure)
  }

  // ---------------------------------------------------------------------
  // What a bucket's display lines look like.
  // ---------------------------------------------------------------------

  /** Where the first word of display line `i` starts. */
  function Base(i: nat, indent: nat): real
  {
    if i == 0 then 0.0 else indent as real * CharWidth
  }

  /** Where laid-out spans end. */
  function End(spans: seq<ColorSpan>, measure: string -> Width): real
    requires spans != []
  {
    spans[|spans| - 1].start + measure(spans[|spans| - 1].text)
  }

  /**
   * The spans of one display line: the first starts at `base`, each further
   * one starts where the one before it ends and still ends within the
   * content width.
   */
  predicate Chained(spans: seq<ColorSpan>, base: real, measure: string -> Width)
  {
    && (spans != [] ==> spans[0].start == base)
    && forall k :: 0 < k < |spans| ==>
         spans[k].start == spans[k - 1].start + measure(spans[k - 1].text)
         && spans[k].start + measure(spans[k].text) <= MaxContentWidth
  }

  /**
   * A bucket's display lines: none is empty, the first has indent 0 and the
   * others `indent`, each is chained from its base, and each line after
   * the first starts with a word that would have passed the content width
   * at the end of the line before.
   */
  predicate Laid(lines: seq<WrappedLine>, indent: nat, measure: string -> Width)
  {
    && (forall i :: 0 <= i < |lines| ==>
          && lines[i].spans != []
          && lines[i].indent == (if i == 0 then 0 else indent)
          && Chained(lines[i].spans, Base(i, indent), measure))
    && (forall i :: 0 < i < |lines| ==>
          End(lines[i - 1].spans, measure) + measure(lines[i].spans[0].text) > MaxContentWidth)
  }

  /** The fold's invariant after placing the words `ws`. */
  predicate Placed(st: Wrapping, ws: seq<Word>, indent: nat, measure: string -> Width)
  {
    && (st.first <==> st.out == [])
    && (st.current == [] ==> st.out == [])
    && WordsOf(AllSpans(st.out) + st.current) == ws
    && Laid(st.out, indent, measure)
    && Chained(st.current, Base(|st.out|, indent), measure)
    && st.width == (if st.current == [] then Base(|st.out|, indent) else End(st.current, measure))
    && (st.out != [] && st.current != [] ==>
          End(st.out[|st.out| - 1].spans, measure) + measure(st.current[0].text) > MaxContentWidth)
  }

  lemma PlacedFresh(indent: nat, measure: string -> Width)
    ensures Placed(Fresh, [], indent, measure)
  {
  }

  /** Closing a non-empty current line keeps the lines laid out. */
  lemma FlushLaid(st: Wrapping, ws: seq<Word>, indent: nat, measure: string -> Width)
    requires Placed(st, ws, indent, measure) && st.current != []
    ensures Laid(Flushed(st, indent), indent, measure)
    ensures WordsOf(AllSpans(Flushed(st, indent))) == ws
  {
    var out' := Flushed(st, indent);
    assert out'[..|st.out|] == st.out;
    forall i | 0 <= i < |out'|
      ensures out'[i].spans != [] && out'[i].indent == (if i == 0 then 0 else indent)
      ensures Chained(out'[i].spans, Base(i, indent), measure)
    {
      if i < |st.out| {
        assert out'[i] == st.out[i];
      }
    }
    forall i | 0 < i < |out'|
      ensures End(out'[i - 1].spans, measure) + measure(out'[i].spans[0].text) > MaxContentWidth
    {
      if i < |st.out| {
        assert out'[i] == st.out[i] && out'[i - 1] == st.out[i - 1];
      }
    }
  }

  /** Pushing a word onto the current line, after a flush or not. */
  lemma PushChained(cur: seq<ColorSpan>, base: real, w: Word, width: real, measure: string -> Width)
    requires Chained(cur, base, measure)
    requires width == (if cur == [] then base else End(cur, measure))
    requires cur != [] ==> width + measure(w.text) <= MaxContentWidth
    ensures Chained(cur + [ColorSpan(w.text, w.color, width)], base, measure)
  {
    var cur' := cur + [ColorSpan(w.text, w.color, width)];
    forall k | 0 < k < |cur'|
      ensures cur'[k].start == cur'[k - 1].start + measure(cur'[k - 1].text)
      ensures cur'[k].start + measure(cur'[k].text) <= MaxContentWidth
    {
      if k < |cur| {
        assert cur'[k] == cur[k] && cur'[k - 1] == cur[k - 1];
      }
    }
  }

  lemma WordsOfAppend(a: seq<ColorSpan>, b: seq<ColorSpan>)
    ensures WordsOf(a + b) == WordsOf(a) + WordsOf(b)
  {
  }

  lemma PlaceWordKeeps(st: Wrapping, ws: seq<Word>, w: Word, ws': seq<Word>, indent: nat, measure: string -> Width)
    requires Placed(st, ws, indent, measure) && ws' == ws + [w]
    ensures Placed(PlaceWord(st, w, indent, measure), ws', indent, measure)
  {
    if st.width + measure(w.text) > MaxContentWidth && st.current != [] {
      PlaceWordBreaks(st, w, indent, measure);
      PlaceBreaking(st, ws, w, ws', indent, measure);
    } else {
      PlaceWordStays(st, w, indent, measure);
      PlaceOn(st, ws, w, ws', indent, measure);
    }
  }

  /** A word that fits, or the first one of a line, goes on the current line. */
  lemma PlaceOn(st: Wrapping, ws: seq<Word>, w: Word, ws': seq<Word>, indent: nat, measure: string -> Width)
    requires Placed(st, ws, indent, measure) && ws' == ws + [w]
    requires st.current != [] ==> st.width + measure(w.text) <= MaxContentWidth
    ensures Placed(Wrapping(st.out, st.current + [ColorSpan(w.text, w.color, st.width)], st.width + measure(w.text), st.first),
                   ws', indent, measure)
  {
    var span := ColorSpan(w.text, w.color, st.width);
    PushChained(st.current, Base(|st.out|, indent), w, st.width, measure);
    WordsOfAppend(AllSpans(st.out) + st.current, [span]);
    assert AllSpans(st.out) + (st.current + [span]) == AllSpans(st.out) + st.current + [span];
  }

  /** A word that would pass the content width closes the current line and starts the next one. */
  lemma PlaceBreaking(st: Wrapping, ws: seq<Word>, w: Word, ws': seq<Word>, indent: nat, measure: string -> Width)
    requires Placed(st, ws, indent, measure) && ws' == ws + [w]
    requires st.current != [] && st.width + measure(w.text) > MaxContentWidth
    ensures Placed(Wrapping(Flushed(st, indent), [ColorSpan(w.text, w.color, indent as real * CharWidth)],
                            indent as real * CharWidth + measure(w.text), false),
                   ws', indent, measure)
  {
    var out' := Flushed(st, indent);
    var span := ColorSpan(w.text, w.color, indent as real * CharWidth);
    FlushLaid(st, ws, indent, measure);
    assert End(out'[|out'| - 1].spans, measure) == st.width;
    WordsOfAppend(AllSpans(out'), [span]);
  }

  lemma {:induction false} PlaceAllKeeps(ws: seq<Word>, indent: nat, measure: string -> Width)
    ensures Placed(PlaceAll(Fresh, ws, indent, measure), ws, indent, measure)
  {
    if ws == [] {
      PlacedFresh(indent, measure);
    } else {
      var ws', w := ws[..|ws| - 1], ws[|ws| - 1];
      var st := PlaceAll(Fresh, ws', indent, measure);
      assert PlaceAll(Fresh, ws, indent, measure) == PlaceWord(st, w, indent, measure);
      PlaceAllKeeps(ws', indent, measure);
      assert ws' + [w] == ws;
      PlaceWordKeeps(st, ws', w, ws, indent, measure);
    }
  }

  /**
   * A bucket's display lines are laid out as `Laid` says, with the indent
   * of its first span, and hold exactly the bucket's words, in order and in
   * their colours; there are none exactly when the bucket has no text.
   */
  lemma WrapBucketLaid(spans: seq<ColorSpan>, measure: string -> Width)
    ensures Laid(WrapBucket(spans, measure), Indent(spans), measure)
    ensures WordsOf(AllSpans(WrapBucket(spans, measure))) == BucketWords(spans)
    ensures WrapBucket(spans, measure) == [] <==> BucketWords(spans) == []
  {
    var indent := Indent(spans);
    var st := PlaceAll(Fresh, BucketWords(spans), indent, measure);
    PlaceAllKeeps(BucketWords(spans), indent, measure);
    if st.current != [] {
      FlushLaid(st, BucketWords(spans), indent, measure);
    } else {
      assert AllSpans(st.out) + st.current == AllSpans(st.out);
    }
  }

  // ---------------------------------------------------------------------
  // Consequences: lossless, non-empty uniform words, over-wide words alone.
  // ---------------------------------------------------------------------

  lemma {:induction false} WordGlyphsAppend(a: seq<Word>, b: seq<Word>)
    ensures WordGlyphs(a + b) == WordGlyphs(a) + WordGlyphs(b)
    decreases |b|
  {
    if b == [] {
      assert a + b == a;
    } else {
      var b', w := b[..|b| - 1], b[|b| - 1];
      assert (a + b)[..|a + b| - 1] == a + b';
      assert (a + b)[|a + b| - 1] == w;
      WordGlyphsAppend(a, b');
      assert WordGlyphs(a + b) == WordGlyphs(a + b') + Paint(w.text, w.color);
      assert WordGlyphs(b) == WordGlyphs(b') + Paint(w.text, w.color);
    }
  }

  lemma {:induction false} WordGlyphsColored(rs: seq<string>, c: Color)
    ensures WordGlyphs(Colored(rs, c)) == Paint(Concat(rs), c)
  {
    if rs != [] {
      assert Colored(rs, c) == [Word(rs[0], c)] + Colored(rs[1..], c);
      WordGlyphsAppend([Word(rs[0], c)], Colored(rs[1..], c));
      assert WordGlyphs([Word(rs[0], c)]) == Paint(rs[0], c);
      WordGlyphsColored(rs[1..], c);
      PaintAppend(rs[0], Concat(rs[1..]), c);
    }
  }

  /** The words of a bucket are its coloured text. */
  lemma {:induction false} BucketWordsGlyphs(spans: seq<ColorSpan>)
    ensures WordGlyphs(BucketWords(spans)) == Glyphs(spans)
  {
    if spans != [] {
      var last := spans[|spans| - 1];
      BucketWordsGlyphs(spans[..|spans| - 1]);
      WordGlyphsAppend(BucketWords(spans[..|spans| - 1]), SpanWords(last));
      WordGlyphsColored(Runs(last.text), last.color);
      ConcatRuns(last.text);
    }
  }

  /** Positions aside, laid-out spans carry the coloured text of their words. */
  lemma {:induction false} WordsOfGlyphs(spans: seq<ColorSpan>)
    ensures WordGlyphs(WordsOf(spans)) == Glyphs(spans)
  {
    if spans != [] {
      assert WordsOf(spans)[..|spans| - 1] == WordsOf(spans[..|spans| - 1]);
      WordsOfGlyphs(spans[..|spans| - 1]);
    }
  }

  /** Every word of a bucket is a non-empty run of whitespace or of non-whitespace. */
  lemma {:induction false} BucketWordsUniform(spans: seq<ColorSpan>)
    ensures forall i :: 0 <= i < |BucketWords(spans)| ==> BucketWords(spans)[i].text != [] && Uniform(BucketWords(spans)[i].text)
  {
    if spans != [] {
      BucketWordsUniform(spans[..|spans| - 1]);
    }
  }

  /**
   * A bucket's display lines hold its coloured text, as non-empty words of
   * one kind each; a bucket without text gives no display line.
   */
  lemma WrapBucketLossless(spans: seq<ColorSpan>, measure: string -> Width)
    ensures Glyphs(AllSpans(WrapBucket(spans, measure))) == Glyphs(spans)
    ensures forall s :: s in AllSpans(WrapBucket(spans, measure)) ==> s.text != [] && Uniform(s.text)
    ensures WrapBucket(spans, measure) == [] <==> Texts(spans) == []
  {
    WrapBucketGlyphs(spans, measure);
    WrapBucketUniform(spans, measure);
    WrapBucketNone(spans, measure);
  }

  /** The words a bucket's display lines carry, and when there are none. */
  lemma WrapBucketWords(spans: seq<ColorSpan>, measure: string -> Width)
    ensures WordsOf(AllSpans(WrapBucket(spans, measure))) == BucketWords(spans)
    ensures WrapBucket(spans, measure) == [] <==> BucketWords(spans) == []
  {
    WrapBucketLaid(spans, measure);
  }

  lemma WrapBucketGlyphs(spans: seq<ColorSpan>, measure: string -> Width)
    ensures Glyphs(AllSpans(WrapBucket(spans, measure))) == Glyphs(spans)
  {
    var all := AllSpans(WrapBucket(spans, measure));
    WrapBucketWords(spans, measure);
    WordsOfGlyphs(all);
    BucketWordsGlyphs(spans);
  }

  lemma WrapBucketUniform(spans: seq<ColorSpan>, measure: string -> Width)
    ensures forall s :: s in AllSpans(WrapBucket(spans, measure)) ==> s.text != [] && Uniform(s.text)
  {
    var all := AllSpans(WrapBucket(spans, measure));
    WrapBucketWords(spans, measure);
    BucketWordsUniform(spans);
    forall s | s in all
      ensures s.text != [] && Uniform(s.text)
    {
      var i :| 0 <= i < |all| && all[i] == s;
      assert WordsOf(all)[i] == BucketWords(spans)[i];
    }
  }

  lemma WrapBucketNone(spans: seq<ColorSpan>, measure: string -> Width)
    ensures WrapBucket(spans, measure) == [] <==> Texts(spans) == []
  {
    WrapBucketWords(spans, measure);
    BucketWordsGlyphs(spans);
    assert |Texts(spans)| == |Glyphs(spans)|;
    assert |WordGlyphs(BucketWords(spans))| == 0 <== BucketWords(spans) == [];
    if BucketWords(spans) != [] {
      BucketWordsUniform(spans);
      WordGlyphsAppend(BucketWords(spans)[..1], BucketWords(spans)[1..]);
      assert BucketWords(spans)[..1] + BucketWords(spans)[1..] == BucketWords(spans);
    }
  }

  /**
   * On a display line of two or more words every word ends within the
   * content width: a word that passes it sits alone on its line.
   */
  lemma OverWideAlone(lines: seq<WrappedLine>, indent: nat, measure: string -> Width, i: nat)
    requires Laid(lines, indent, measure) && i < |lines|
    ensures |lines[i].spans| > 1 ==>
      forall k :: 0 <= k < |lines[i].spans| ==> lines[i].spans[k].start + measure(lines[i].spans[k].text) <= MaxContentWidth
  {
    var sp := lines[i].spans;
    assert Chained(sp, Base(i, indent), measure);
    if |sp| > 1 {
      assert sp[1].start == sp[0].start + measure(sp[0].text);
      assert sp[1].start + measure(sp[1].text) <= MaxContentWidth;
    }
  }

  // ---------------------------------------------------------------------
  // The wrapping loops.
  // ---------------------------------------------------------------------

  /**
   * The body of `colorSpans.forEach`: the indent of the first span, then
   * every word of every span placed greedily, then the last line.
   */
  method WrapSpans(spans: seq<ColorSpan>, measure: string -> Width) returns (lines: seq<WrappedLine>)
    ensures lines == WrapBucket(spans, measure)
  {
    var currentWidth: real := 0.0;
    var currentSpans: seq<ColorSpan> := [];
    var isFirstLine := true;
    var indent: nat := 0;
    lines := [];
    if |spans| > 0 {
      var firstSpan := spans[0];
      if |firstSpan.text| > 0 {
        indent := LeadingSpace(firstSpan.text);
      }
    }
    for i := 0 to |spans|
      invariant Wrapping(lines, currentSpans, currentWidth, isFirstLine) == PlaceAll(Fresh, BucketWords(spans[..i]), indent, measure)
    {
      ghost var before := BucketWords(spans[..i]);
      lines, currentSpans, currentWidth, isFirstLine := PlaceSpan(lines, currentSpans, currentWidth, isFirstLine, spans[i], indent, measure);
      PlaceAllAppend(Fresh, before, SpanWords(spans[i]), indent, measure);
      BucketWordsNext(spans, i);
    }
    assert spans[..|spans|] == spans;
    if |currentSpans| > 0 {
      lines := lines + [WrappedLine(currentSpans, if isFirstLine then 0 else indent)];
    }
  }

  /** The body of `spans.forEach`: every word of one span placed in turn. */
  method PlaceSpan(lines: seq<WrappedLine>, currentSpans: seq<ColorSpan>, currentWidth: real, isFirstLine: bool,
                   span: ColorSpan, indent: nat, measure: string -> Width)
    returns (lines': seq<WrappedLine>, currentSpans': seq<ColorSpan>, currentWidth': real, isFirstLine': bool)
    ensures Wrapping(lines', currentSpans', currentWidth', isFirstLine')
         == PlaceAll(Wrapping(lines, currentSpans, currentWidth, isFirstLine), SpanWords(span), indent, measure)
  {
    ghost var start := Wrapping(lines, currentSpans, currentWidth, isFirstLine);
    lines', currentSpans', currentWidth', isFirstLine' := lines, currentSpans, currentWidth, isFirstLine;
    // Runs are never empty, so the source's skip of empty words never fires.
    var words := Runs(span.text);
    for k := 0 to |words|
      invariant Wrapping(lines', currentSpans', currentWidth', isFirstLine') == PlaceAll(start, SpanWords(span)[..k], indent, measure)
    {
      PlaceAllNext(start, SpanWords(span), k, indent, measure);
      lines', currentSpans', currentWidth', isFirstLine' := PlaceOne(lines', currentSpans', currentWidth', isFirstLine', Word(words[k], span.color), indent, measure);
    }
    assert SpanWords(span)[..|words|] == SpanWords(span);
  }

  /** One pass of the word loop: break the line if the word passes the content width, then place it. */
  method PlaceOne(lines: seq<WrappedLine>, currentSpans: seq<ColorSpan>, currentWidth: real, isFirstLine: bool,
                  word: Word, indent: nat, measure: string -> Width)
    returns (lines': seq<WrappedLine>, currentSpans': seq<ColorSpan>, currentWidth': real, isFirstLine': bool)
    ensures Wrapping(lines', currentSpans', currentWidth', isFirstLine')
         == PlaceWord(Wrapping(lines, currentSpans, currentWidth, isFirstLine), word, indent, measure)
  {
    ghost var st := Wrapping(lines, currentSpans, currentWidth, isFirstLine);
    lines', currentSpans', currentWidth', isFirstLine' := lines, currentSpans, currentWidth, isFirstLine;
    var wordWidth := measure(word.text);
    if currentWidth + wordWidth > MaxContentWidth {
      if |currentSpans| > 0 {
        PlaceWordBreaks(st, word, indent, measure);
        lines' := lines + [WrappedLine(currentSpans, if isFirstLine then 0 else indent)];
        currentSpans' := [];
        currentWidth' := indent as real * CharWidth;
        isFirstLine' := false;
      } else {
        PlaceWordStays(st, word, indent, measure);
      }
    } else {
      PlaceWordStays(st, word, indent, measure);
    }
    currentSpans' := currentSpans' + [ColorSpan(word.text, word.color, currentWidth')];
    currentWidth' := currentWidth' + wordWidth;
  }

  /** Placing two word sequences one after the other is placing their concatenation. */
  lemma {:induction false} PlaceAllAppend(st: Wrapping, a: seq<Word>, b: seq<Word>, indent: nat, measure: string -> Width)
    ensures PlaceAll(st, a + b, indent, measure) == PlaceAll(PlaceAll(st, a, indent, measure), b, indent, measure)
    decreases |b|
  {
    if b == [] {
      assert a + b == a;
    } else {
      assert (a + b)[..|a + b| - 1] == a + b[..|b| - 1];
      PlaceAllAppend(st, a, b[..|b| - 1], indent, measure);
    }
  }

  /** Placing a word that passes the content width behind a non-empty line. */
  lemma PlaceWordBreaks(st: Wrapping, w: Word, indent: nat, measure: string -> Width)
    requires st.width + measure(w.text) > MaxContentWidth && st.current != []
    ensures PlaceWord(st, w, indent, measure)
         == Wrapping(Flushed(st, indent), [ColorSpan(w.text, w.color, indent as real * CharWidth)],
                     indent as real * CharWidth + measure(w.text), false)
  {
  }

  /** Placing a word that fits, or onto an empty line. */
  lemma PlaceWordStays(st: Wrapping, w: Word, indent: nat, measure: string -> Width)
    requires !(st.width + measure(w.text) > MaxContentWidth && st.current != [])
    ensures PlaceWord(st, w, indent, measure)
         == Wrapping(st.out, st.current + [ColorSpan(w.text, w.color, st.width)], st.width + measure(w.text), st.first)
  {
  }

  lemma PlaceAllNext(st: Wrapping, ws: seq<Word>, k: nat, indent: nat, measure: string -> Width)
    requires k < |ws|
    ensures PlaceAll(st, ws[..k + 1], indent, measure) == PlaceWord(PlaceAll(st, ws[..k], indent, measure), ws[k], indent, measure)
  {
    assert ws[..k + 1][..k] == ws[..k];
  }

  lemma BucketWordsNext(spans: seq<ColorSpan>, i: nat)
    requires i < |spans|
    ensures BucketWords(spans[..i + 1]) == BucketWords(spans[..i]) + SpanWords(spans[i])
  {
    assert spans[..i + 1][..i] == spans[..i];
  }

  /** The wrapping of `codeToImage`: every bucket in turn, its display lines appended. */
  method Wrap(colorSpans: seq<seq<ColorSpan>>, measure: string -> Width) returns (wrappedLines: seq<WrappedLine>)
    ensures wrappedLines == WrapAll(colorSpans, measure)
  {
    wrappedLines := [];
    for b := 0 to |colorSpans|
      invariant wrappedLines == WrapAll(colorSpans[..b], measure)
    {
      var lines := WrapSpans(colorSpans[b], measure);
      assert colorSpans[..b + 1][..b] == colorSpans[..b];
      wrappedLines := wrappedLines + lines;
    }
    assert colorSpans[..|colorSpans|] == colorSpans;
  }

  /** All display lines hold the coloured text of all buckets, bucket after bucket. */
  lemma {:induction false} WrapAllLossless(buckets: seq<seq<ColorSpan>>, measure: string -> Width)
    ensures Glyphs(AllSpans(WrapAll(buckets, measure))) == FlatGlyphs(buckets)
  {
    if buckets != [] {
      var init, last := buckets[..|buckets| - 1], buckets[|buckets| - 1];
      WrapAllLossless(init, measure);
      AllSpansAppend(WrapAll(init, measure), WrapBucket(last, measure));
      GlyphsAppend(AllSpans(WrapAll(init, measure)), AllSpans(WrapBucket(last, measure)));
      WrapBucketLossless(last, measure);
    }
  }
}
