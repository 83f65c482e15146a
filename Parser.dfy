/**
 * The markup parser and line bucketer of `codeToImage`: it runs the scanner
 * over the highlighter's markup, decodes each captured text, splits it at
 * line breaks and appends every non-empty piece as a coloured span to the
 * bucket of the source line it falls on.
 */
module Parser {
  import opened Wrappers
  import opened Palette
  import opened Spans
  import opened Scanner
  import Entities
  import Text

  /** JavaScript `s.split("\n")`: always at least one piece. */
  function Lines(s: string): (r: seq<string>)
    ensures |r| >= 1
    ensures forall i :: 0 <= i < |r| ==> '\n' !in r[i]
    decreases |s|
  {
    if s == [] then [[]]
    else
      var L := Lines(s[..|s| - 1]);
      var c := s[|s| - 1];
      if c == '\n' then L + [[]] else L[..|L| - 1] + [L[|L| - 1] + [c]]
  }

  /** The pieces put back together with line breaks: the inverse of `Lines`. */
  function Join(ps: seq<string>): string
    requires ps != []
  {
    if |ps| == 1 then ps[0] else Join(ps[..|ps| - 1]) + "\n" + ps[|ps| - 1]
  }

  lemma {:induction false} JoinLines(s: string)
    ensures Join(Lines(s)) == s
    decreases |s|
  {
    if s != [] {
      var t, c := s[..|s| - 1], s[|s| - 1];
      var L := Lines(t);
      JoinLines(t);
      assert s == t + [c];
      if c != '\n' {
        var m := |L| - 1;
        var L' := L[..m] + [L[m] + [c]];
        if m == 0 {
          assert Join(L') == L[m] + [c];
        } else {
          assert L'[..m] == L[..m] && L[..m] == L[..|L| - 1];
        }
      } else {
        assert (L + [[]])[..|L|] == L;
      }
    }
  }

  // ---------------------------------------------------------------------
  // The same split on coloured text, in which the parser's output is specified.
  // ---------------------------------------------------------------------

  /** Coloured text split at its line breaks; a line break glyph belongs to no line. */
  function GlyphLines(g: seq<Glyph>): (r: seq<seq<Glyph>>)
    ensures |r| >= 1
    decreases |g|
  {
    if g == [] then [[]]
    else
      var L := GlyphLines(g[..|g| - 1]);
      var x := g[|g| - 1];
      if x.ch == '\n' then L + [[]] else L[..|L| - 1] + [L[|L| - 1] + [x]]
  }

  /** Coloured line `j` of `g`, empty beyond the last line. */
  function LineAt(g: seq<Glyph>, j: nat): seq<Glyph>
  {
    var L := GlyphLines(g);
    if j < |L| then L[j] else []
  }

  /** How the lines `R` of `a + b` are made of the lines `A` of `a` and `B` of `b`. */
  ghost predicate Concatenated(A: seq<seq<Glyph>>, B: seq<seq<Glyph>>, R: seq<seq<Glyph>>)
    requires |A| >= 1 && |B| >= 1
  {
    && |R| == |A| + |B| - 1
    && (forall j :: 0 <= j < |A| - 1 ==> R[j] == A[j])
    && R[|A| - 1] == A[|A| - 1] + B[0]
    && (forall j :: 1 <= j < |B| ==> R[|A| - 1 + j] == B[j])
  }

  /** Appending text leaves the earlier lines alone, extends the last one and adds the rest. */
  lemma {:induction false} GlyphLinesAppend(a: seq<Glyph>, b: seq<Glyph>)
    ensures Concatenated(GlyphLines(a), GlyphLines(b), GlyphLines(a + b))
    decreases |b|
  {
    if b == [] {
      assert a + b == a;
    } else {
      var b', x := b[..|b| - 1], b[|b| - 1];
      assert a + b == (a + b') + [x];
      assert (a + b)[..|a + b| - 1] == a + b';
      GlyphLinesAppend(a, b');
      if x.ch == '\n' {
        AppendBreak(GlyphLines(a), GlyphLines(b'), GlyphLines(a + b'));
      } else {
        AppendGlyph(GlyphLines(a), GlyphLines(b'), GlyphLines(a + b'), x);
      }
    }
  }

  lemma AppendBreak(A: seq<seq<Glyph>>, B: seq<seq<Glyph>>, R: seq<seq<Glyph>>)
    requires |A| >= 1 && |B| >= 1 && Concatenated(A, B, R)
    ensures Concatenated(A, B + [[]], R + [[]])
  {
    var B2, R2 := B + [[]], R + [[]];
    forall j | 1 <= j < |B2|
      ensures R2[|A| - 1 + j] == B2[j]
    {
      if j < |B| {
        assert R2[|A| - 1 + j] == R[|A| - 1 + j];
      }
    }
  }

  lemma AppendGlyph(A: seq<seq<Glyph>>, B: seq<seq<Glyph>>, R: seq<seq<Glyph>>, x: Glyph)
    requires |A| >= 1 && |B| >= 1 && Concatenated(A, B, R)
    ensures Concatenated(A, B[..|B| - 1] + [B[|B| - 1] + [x]], R[..|R| - 1] + [R[|R| - 1] + [x]])
  {
    var B2 := B[..|B| - 1] + [B[|B| - 1] + [x]];
    var R2 := R[..|R| - 1] + [R[|R| - 1] + [x]];
    if |B| == 1 {
      assert R2[|A| - 1] == A[|A| - 1] + B2[0];
    } else {
      assert R2[|A| - 1] == R[|A| - 1];
      forall j | 1 <= j < |B2|
        ensures R2[|A| - 1 + j] == B2[j]
      {
        if j < |B| - 1 {
          assert R2[|A| - 1 + j] == R[|A| - 1 + j];
        }
      }
    }
  }

  /** Splitting coloured text splits its characters the same way. */
  lemma {:induction false} GlyphLinesChars(g: seq<Glyph>)
    ensures |GlyphLines(g)| == |Lines(Chars(g))|
    ensures forall j :: 0 <= j < |GlyphLines(g)| ==> Chars(GlyphLines(g)[j]) == Lines(Chars(g))[j]
    decreases |g|
  {
    if g != [] {
      var g' := g[..|g| - 1];
      assert Chars(g)[..|g| - 1] == Chars(g');
      GlyphLinesChars(g');
    }
  }

  // ---------------------------------------------------------------------
  // The bucketing loop as a fold: its state, one step per piece, one step
  // per match.
  // ---------------------------------------------------------------------

  /** The loop's state (`colorSpans`, `currentLine`, `currentPos`), or the line at which a push threw. */
  datatype Parsing = Parsing(buckets: seq<seq<ColorSpan>>, line: nat, pos: nat) | Failed(line: nat)

  /** `colorSpans[currentLine]` is undefined past the last bucket, so pushing to it throws. */
  datatype ParseError = LineOutOfRange(line: nat)

  /** One empty bucket per source line. */
  function EmptyBuckets(n: nat): (b: seq<seq<ColorSpan>>)
    ensures |b| == n && forall j :: 0 <= j < n ==> b[j] == []
  {
    seq(n, _ => [])
  }

  function Start(n: nat): Parsing
  {
    Parsing(EmptyBuckets(n), 0, 0)
  }

  /** A line break inside captured text: next bucket, position 0. It never throws and touches no bucket. */
  function BreakStep(st: Parsing): (r: Parsing)
    ensures r.Failed? == st.Failed?
    ensures r.Parsing? ==> r.buckets == st.buckets && r.line == st.line + 1 && r.pos == 0
  {
    if st.Failed? then st else Parsing(st.buckets, st.line + 1, 0)
  }

  /**
   * A piece of text without line breaks: pushed as a span at the current
   * position unless empty. It throws exactly when a non-empty piece falls
   * past the last bucket; otherwise only the current bucket grows, by that
   * one span, and the position moves past the piece.
   */
  function TextStep(st: Parsing, piece: string, color: Color): (r: Parsing)
    ensures r.Failed? <==> st.Failed? || (piece != [] && st.line >= |st.buckets|)
    ensures st.Parsing? && r.Parsing? ==> |r.buckets| == |st.buckets| && r.line == st.line
    ensures st.Parsing? && r.Parsing? && piece == [] ==> r == st
    ensures st.Parsing? && r.Parsing? && piece != [] ==>
      && r.buckets[st.line] == st.buckets[st.line] + [ColorSpan(piece, color, st.pos as real)]
      && r.pos == st.pos + |piece|
      && forall j :: 0 <= j < |st.buckets| && j != st.line ==> r.buckets[j] == st.buckets[j]
  {
    if st.Failed? || piece == [] then st
    else if st.line >= |st.buckets| then Failed(st.line)
    else
      var span := ColorSpan(piece, color, st.pos as real);
      Parsing(st.buckets[st.line := st.buckets[st.line] + [span]], st.line, st.pos + |piece|)
  }

  /** Piece number `index` of one match's text. */
  function PieceStep(st: Parsing, piece: string, index: nat, color: Color): Parsing
  {
    TextStep(if index > 0 then BreakStep(st) else st, piece, color)
  }

  /** The first `k` pieces of one match's text. */
  function Pieces(st: Parsing, ps: seq<string>, k: nat, color: Color): Parsing
    requires k <= |ps|
  {
    if k == 0 then st else PieceStep(Pieces(st, ps, k - 1, color), ps[k - 1], k - 1, color)
  }

  /** The decoded text of a match, split at line breaks. */
  function MatchPieces(m: Match): seq<string>
  {
    Lines(Entities.Decode(m.raw))
  }

  function MatchStep(st: Parsing, m: Match): Parsing
  {
    Pieces(st, MatchPieces(m), |MatchPieces(m)|, ColorOf(m.cls))
  }

  function Run(st: Parsing, ms: seq<Match>): Parsing
    decreases |ms|
  {
    if ms == [] then st else Run(MatchStep(st, ms[0]), ms[1..])
  }

  /** What the parser produces for the source `code` and the highlighter's markup `html`. */
  function Parsed(code: string, html: string, mode: Mode): Result<seq<seq<ColorSpan>>, ParseError>
  {
    match Run(Start(|Lines(code)|), Matches(html, mode))
    case Parsing(buckets, _, _) => Ok(buckets)
    case Failed(line) => Err(LineOutOfRange(line))
  }

  lemma {:induction false} PiecesFailed(st: Parsing, ps: seq<string>, k: nat, j: nat, color: Color)
    requires k <= j <= |ps| && Pieces(st, ps, k, color).Failed?
    ensures Pieces(st, ps, j, color) == Pieces(st, ps, k, color)
    decreases j - k
  {
    if k < j {
      PiecesFailed(st, ps, k, j - 1, color);
    }
  }

  lemma {:induction false} RunFailed(line: nat, ms: seq<Match>)
    ensures Run(Failed(line), ms) == Failed(line)
  {
    if ms != [] {
      assert Pieces(Failed(line), MatchPieces(ms[0]), 0, ColorOf(ms[0].cls)).Failed?;
      PiecesFailed(Failed(line), MatchPieces(ms[0]), 0, |MatchPieces(ms[0])|, ColorOf(ms[0].cls));
      RunFailed(line, ms[1..]);
    }
  }

  /**
   * The per-match callback of the bucketing loop, over the pieces of one
   * decoded text: a line break (every piece after the first) moves to the
   * next bucket and resets the position; a non-empty piece is pushed as a
   * span starting at the position and advances it. `ok` is false when a push
   * falls past the last bucket, where the source throws.
   */
  method PushPieces(colorSpans: seq<seq<ColorSpan>>, currentLine: nat, currentPos: nat, m: Match)
    returns (spans': seq<seq<ColorSpan>>, line': nat, pos': nat, ok: bool)
    ensures ok ==> MatchStep(Parsing(colorSpans, currentLine, currentPos), m) == Parsing(spans', line', pos')
    ensures !ok ==> MatchStep(Parsing(colorSpans, currentLine, currentPos), m) == Failed(line')
  {
    var text := Entities.Decode(m.raw);
    var textLines := Lines(text);
    var color := ColorOf(m.cls);
    ghost var before := Parsing(colorSpans, currentLine, currentPos);
    spans', line', pos' := colorSpans, currentLine, currentPos;
    var k := 0;
    while k < |textLines|
      invariant 0 <= k <= |textLines|
      invariant Pieces(before, textLines, k, color) == Parsing(spans', line', pos')
    {
      var lineText := textLines[k];
      if k > 0 {
        line' := line' + 1;
        pos' := 0;
      }
      if |lineText| > 0 {
        if line' >= |spans'| {
          assert Pieces(before, textLines, k + 1, color) == Failed(line');
          PiecesFailed(before, textLines, k + 1, |textLines|, color);
          return spans', line', pos', false;
        }
        spans' := spans'[line' := spans'[line'] + [ColorSpan(lineText, color, pos' as real)]];
        pos' := pos' + |lineText|;
      }
      k := k + 1;
    }
    ok := true;
  }

  /**
   * The bucketing loop of `codeToImage`: one bucket per line of `code`;
   * `exec` the scanner over the markup and hand the decoded, split text of
   * every match to `PushPieces`.
   */
  method Parse(code: string, html: string, mode: Mode) returns (r: Result<seq<seq<ColorSpan>>, ParseError>)
    ensures r == Parsed(code, html, mode)
  {
    var lines := Lines(code);
    var colorSpans := EmptyBuckets(|lines|);
    var currentLine: nat := 0;
    var currentPos: nat := 0;
    ghost var goal := Run(Start(|lines|), Matches(html, mode));
    assert html[0..] == html;
    var i := 0;
    while i < |html|
      invariant 0 <= i <= |html|
      invariant Run(Parsing(colorSpans, currentLine, currentPos), Matches(html[i..], mode)) == goal
      decreases |html| - i
    {
      var ok;
      colorSpans, currentLine, currentPos, i, ok := ExecStep(colorSpans, currentLine, currentPos, html, i, mode);
      if !ok {
        return Err(LineOutOfRange(currentLine));
      }
    }
    assert html[i..] == [];
    return Ok(colorSpans);
  }

  /**
   * One `exec` call at offset `i` and, when it finds a match, the callback
   * on it: `next` is where the following `exec` starts, and `ok` is false
   * when the callback threw.
   */
  method ExecStep(colorSpans: seq<seq<ColorSpan>>, currentLine: nat, currentPos: nat, html: string, i: nat, mode: Mode)
    returns (spans': seq<seq<ColorSpan>>, line': nat, pos': nat, next: nat, ok: bool)
    requires i < |html|
    ensures i < next <= |html|
    ensures ok ==>
      Run(Parsing(colorSpans, currentLine, currentPos), Matches(html[i..], mode)) == Run(Parsing(spans', line', pos'), Matches(html[next..], mode))
    ensures !ok ==> Run(Parsing(colorSpans, currentLine, currentPos), Matches(html[i..], mode)) == Failed(line')
  {
    ghost var st := Parsing(colorSpans, currentLine, currentPos);
    ghost var here := Run(st, Matches(html[i..], mode));
    var found := NextMatch(html[i..], mode);
    if found.None? {
      RunSkip(st, html, i, mode);
      spans', line', pos', next, ok := colorSpans, currentLine, currentPos, i + 1, true;
      assert here == Run(Parsing(spans', line', pos'), Matches(html[next..], mode));
    } else {
      var m, len := found.value.0, found.value.1;
      RunFound(st, html, i, mode, m, len);
      ghost var rest := Matches(html[i + len..], mode);
      ghost var after := MatchStep(st, m);
      assert here == Run(after, rest);
      spans', line', pos', ok := PushPieces(colorSpans, currentLine, currentPos, m);
      next := i + len;
      if !ok {
        assert after == Failed(line');
        RunFailed(line', rest);
      } else {
        assert html[next..] == html[i + len..];
        RunSame(after, Parsing(spans', line', pos'), rest);
      }
    }
  }

  lemma RunSame(a: Parsing, b: Parsing, ms: seq<Match>)
    requires a == b
    ensures Run(a, ms) == Run(b, ms)
  {
  }

  /** An `exec` step at offset `i` that finds nothing moves on by one character. */
  lemma RunSkip(st: Parsing, html: string, i: nat, mode: Mode)
    requires i < |html| && NextMatch(html[i..], mode).None?
    ensures Run(st, Matches(html[i..], mode)) == Run(st, Matches(html[i + 1..], mode))
  {
    assert html[i..][1..] == html[i + 1..];
  }

  /** An `exec` step at offset `i` that finds match `m` of length `len` hands `m` to the callback and continues after it. */
  lemma RunFound(st: Parsing, html: string, i: nat, mode: Mode, m: Match, len: nat)
    requires i < |html| && NextMatch(html[i..], mode) == Some((m, len))
    ensures i + len <= |html|
    ensures Run(st, Matches(html[i..], mode)) == Run(MatchStep(st, m), Matches(html[i + len..], mode))
  {
    assert html[i..][len..] == html[i + len..];
    RunCons(st, m, Matches(html[i + len..], mode));
  }

  lemma RunCons(st: Parsing, m: Match, ms: seq<Match>)
    ensures Run(st, [m] + ms) == Run(MatchStep(st, m), ms)
  {
    assert ([m] + ms)[1..] == ms;
  }

  // ---------------------------------------------------------------------
  // Losslessness: every bucket holds exactly its line of the decoded,
  // coloured text of all matches, and the parser fails exactly when that
  // text has more non-empty lines than the source has lines.
  // ---------------------------------------------------------------------

  /** The coloured text one match contributes. */
  function MatchGlyphs(m: Match): seq<Glyph>
  {
    Paint(Entities.Decode(m.raw), ColorOf(m.cls))
  }

  /** The coloured text of all matches, in order. */
  function Decoded(ms: seq<Match>): seq<Glyph>
  {
    if ms == [] then [] else MatchGlyphs(ms[0]) + Decoded(ms[1..])
  }

  /** A bucket's spans: non-empty, free of line breaks, each starting where the text before it ends. */
  predicate SpansFit(spans: seq<ColorSpan>)
  {
    forall k :: 0 <= k < |spans| ==>
      spans[k].text != [] && '\n' !in spans[k].text && spans[k].start == |Texts(spans[..k])| as real
  }

  /** The loop state after the coloured text `acc` has been consumed, with `n` buckets. */
  ghost predicate Consistent(st: Parsing, n: nat, acc: seq<Glyph>)
  {
    var L := GlyphLines(acc);
    match st
    case Parsing(b, line, pos) =>
      && |b| == n && line == |L| - 1 && pos == |L[line]|
      && (forall j :: 0 <= j < n ==> Glyphs(b[j]) == LineAt(acc, j) && SpansFit(b[j]))
      && (forall j :: n <= j < |L| ==> L[j] == [])
    case Failed(l) =>
      n <= l < |L| && L[l] != [] && forall j :: n <= j < l ==> L[j] == []
  }

  lemma ConsistentStart(n: nat)
    ensures Consistent(Start(n), n, [])
  {
  }

  /** Text without line breaks is a single line. */
  lemma {:induction false} GlyphLinesUnbroken(g: seq<Glyph>)
    requires forall i :: 0 <= i < |g| ==> g[i].ch != '\n'
    ensures GlyphLines(g) == [g]
    decreases |g|
  {
    if g != [] {
      var g' := g[..|g| - 1];
      assert forall i :: 0 <= i < |g'| ==> g'[i] == g[i];
      GlyphLinesUnbroken(g');
      assert g' + [g[|g| - 1]] == g;
    }
  }

  /** Appending text keeps earlier lines and never empties a line. */
  lemma ConsistentFailed(l: nat, n: nat, acc: seq<Glyph>, more: seq<Glyph>)
    requires Consistent(Failed(l), n, acc)
    ensures Consistent(Failed(l), n, acc + more)
  {
    GlyphLinesAppend(acc, more);
  }

  lemma ConsistentBreak(st: Parsing, n: nat, acc: seq<Glyph>, c: Color)
    requires Consistent(st, n, acc)
    ensures Consistent(BreakStep(st), n, acc + [Glyph('\n', c)])
  {
    var acc' := acc + [Glyph('\n', c)];
    assert acc'[..|acc'| - 1] == acc;
    if st.Failed? {
      ConsistentFailed(st.line, n, acc, [Glyph('\n', c)]);
    }
  }

  lemma ConsistentText(st: Parsing, n: nat, acc: seq<Glyph>, piece: string, c: Color)
    requires Consistent(st, n, acc) && '\n' !in piece
    ensures Consistent(TextStep(st, piece, c), n, acc + Paint(piece, c))
  {
    if piece == [] {
      assert acc + Paint(piece, c) == acc;
    } else if st.Failed? {
      ConsistentFailed(st.line, n, acc, Paint(piece, c));
    } else if st.line < |st.buckets| {
      ConsistentPush(st, n, acc, piece, c);
    } else {
      ConsistentOverflow(st, n, acc, piece, c);
    }
  }

  /** A piece pushed onto an existing bucket extends that bucket's line. */
  lemma ConsistentPush(st: Parsing, n: nat, acc: seq<Glyph>, piece: string, c: Color)
    requires Consistent(st, n, acc) && '\n' !in piece && piece != []
    requires st.Parsing? && st.line < |st.buckets|
    ensures Consistent(TextStep(st, piece, c), n, acc + Paint(piece, c))
  {
    var b, line, pos := st.buckets, st.line, st.pos;
    var span := ColorSpan(piece, c, pos as real);
    var b' := b[line := b[line] + [span]];
    var acc' := acc + Paint(piece, c);
    var L, L' := GlyphLines(acc), GlyphLines(acc');
    assert TextStep(st, piece, c) == Parsing(b', line, pos + |piece|);
    AppendUnbroken(acc, piece, c);
    PushSpan(b[line], piece, c, pos);
    assert |L'| == |L| && line == |L'| - 1 && pos + |piece| == |L'[line]|;
    forall j | 0 <= j < n
      ensures Glyphs(b'[j]) == LineAt(acc', j) && SpansFit(b'[j])
    {
      if j != line {
        assert b'[j] == b[j];
        assert LineAt(acc', j) == LineAt(acc, j);
      }
    }
  }

  /** A non-empty piece past the last bucket is the failure the invariant describes. */
  lemma ConsistentOverflow(st: Parsing, n: nat, acc: seq<Glyph>, piece: string, c: Color)
    requires Consistent(st, n, acc) && '\n' !in piece && piece != []
    requires st.Parsing? && st.line >= |st.buckets|
    ensures Consistent(TextStep(st, piece, c), n, acc + Paint(piece, c))
  {
    assert TextStep(st, piece, c) == Failed(st.line);
    AppendUnbroken(acc, piece, c);
  }

  /** Text without line breaks extends the last line only. */
  lemma AppendUnbroken(acc: seq<Glyph>, piece: string, c: Color)
    requires '\n' !in piece
    ensures var L, L' := GlyphLines(acc), GlyphLines(acc + Paint(piece, c));
      && |L'| == |L| && L'[|L| - 1] == L[|L| - 1] + Paint(piece, c)
      && forall j :: 0 <= j < |L| - 1 ==> L'[j] == L[j]
  {
    var g := Paint(piece, c);
    forall i | 0 <= i < |g|
      ensures g[i].ch != '\n'
    {
      assert piece[i] in piece;
    }
    GlyphLinesUnbroken(g);
    GlyphLinesAppend(acc, g);
  }

  /** Pushing a span at the end of a bucket's text keeps the bucket's spans fitting. */
  lemma PushSpan(b: seq<ColorSpan>, piece: string, c: Color, pos: nat)
    requires SpansFit(b) && pos == |Glyphs(b)| && piece != [] && '\n' !in piece
    ensures Glyphs(b + [ColorSpan(piece, c, pos as real)]) == Glyphs(b) + Paint(piece, c)
    ensures SpansFit(b + [ColorSpan(piece, c, pos as real)])
  {
    var b' := b + [ColorSpan(piece, c, pos as real)];
    assert b'[..|b|] == b;
    forall k | 0 <= k < |b'|
      ensures b'[..k] == b[..k]
    {
    }
  }

  lemma {:induction false} ConsistentPieces(st: Parsing, n: nat, acc: seq<Glyph>, ps: seq<string>, k: nat, c: Color)
    requires Consistent(st, n, acc)
    requires 1 <= k <= |ps| && forall i :: 0 <= i < |ps| ==> '\n' !in ps[i]
    ensures Consistent(Pieces(st, ps, k, c), n, acc + Paint(Join(ps[..k]), c))
  {
    if k == 1 {
      ConsistentText(st, n, acc, ps[0], c);
    } else {
      var S := Pieces(st, ps, k - 1, c);
      var A := acc + Paint(Join(ps[..k - 1]), c);
      ConsistentPieces(st, n, acc, ps, k - 1, c);
      ConsistentBreak(S, n, A, c);
      ConsistentText(BreakStep(S), n, A + [Glyph('\n', c)], ps[k - 1], c);
      PaintJoin(ps, k, c);
      var P := Paint(Join(ps[..k - 1]), c);
      Regroup(acc, P + [Glyph('\n', c)], Paint(ps[k - 1], c));
      Regroup(acc, P, [Glyph('\n', c)]);
    }
  }

  lemma PaintJoin(ps: seq<string>, k: nat, c: Color)
    requires 1 < k <= |ps|
    ensures Paint(Join(ps[..k]), c) == Paint(Join(ps[..k - 1]), c) + [Glyph('\n', c)] + Paint(ps[k - 1], c)
  {
    assert ps[..k][..k - 1] == ps[..k - 1];
    assert Join(ps[..k]) == Join(ps[..k - 1]) + "\n" + ps[k - 1];
    PaintAppend(Join(ps[..k - 1]) + "\n", ps[k - 1], c);
    PaintAppend(Join(ps[..k - 1]), "\n", c);
  }

  lemma ConsistentMatch(st: Parsing, n: nat, acc: seq<Glyph>, m: Match)
    requires Consistent(st, n, acc)
    ensures Consistent(MatchStep(st, m), n, acc + MatchGlyphs(m))
  {
    var ps := MatchPieces(m);
    assert ps[..|ps|] == ps;
    JoinLines(Entities.Decode(m.raw));
    ConsistentPieces(st, n, acc, ps, |ps|, ColorOf(m.cls));
  }

  lemma {:induction false} ConsistentRun(st: Parsing, n: nat, acc: seq<Glyph>, ms: seq<Match>)
    requires Consistent(st, n, acc)
    ensures Consistent(Run(st, ms), n, acc + Decoded(ms))
    decreases |ms|
  {
    if ms == [] {
      assert acc + Decoded(ms) == acc;
    } else {
      var st', acc' := MatchStep(st, ms[0]), acc + MatchGlyphs(ms[0]);
      assert Run(st, ms) == Run(st', ms[1..]);
      assert Decoded(ms) == MatchGlyphs(ms[0]) + Decoded(ms[1..]);
      Regroup(acc, MatchGlyphs(ms[0]), Decoded(ms[1..]));
      ConsistentMatch(st, n, acc, ms[0]);
      ConsistentRun(st', n, acc', ms[1..]);
    }
  }

  /**
   * What the bucketing loop computes, in terms of the coloured text `g` of
   * all matches: it succeeds exactly when `g` has no non-empty line beyond
   * the source's last line; then there is one bucket per source line, bucket
   * `j` holds exactly line `j` of `g`, as fitting spans. Otherwise it throws
   * at the first such line.
   */
  lemma ParseLossless(code: string, html: string, mode: Mode)
    ensures var n, g := |Lines(code)|, Decoded(Matches(html, mode));
      var L := GlyphLines(g);
      && (Parsed(code, html, mode).Ok? <==> forall j :: n <= j < |L| ==> L[j] == [])
      && (Parsed(code, html, mode).Ok? ==>
            var b := Parsed(code, html, mode).value;
            |b| == n && forall j :: 0 <= j < n ==> Glyphs(b[j]) == LineAt(g, j) && SpansFit(b[j]))
      && (Parsed(code, html, mode).Err? ==>
            var l := Parsed(code, html, mode).error.line;
            n <= l && LineAt(g, l) != [] && forall j :: n <= j < l ==> LineAt(g, j) == [])
  {
    var n := |Lines(code)|;
    ConsistentStart(n);
    ConsistentRun(Start(n), n, [], Matches(html, mode));
    assert [] + Decoded(Matches(html, mode)) == Decoded(Matches(html, mode));
  }

  // ---------------------------------------------------------------------
  // End to end: markup emitted (by `Emit`) for tokens whose text is the
  // source code is bucketed into exactly the source lines, in the tokens'
  // colours.
  // ---------------------------------------------------------------------

  function TokenColor(t: Token): Color
  {
    ColorOf(MatchOf(t).cls)
  }

  /** The coloured text of a token sequence. */
  function TokenGlyphs(ts: seq<Token>): seq<Glyph>
  {
    if ts == [] then [] else Paint(ts[0].text, TokenColor(ts[0])) + TokenGlyphs(ts[1..])
  }

  /** Decoding what the scanner reports for emitted tokens gives back the tokens' coloured text. */
  lemma {:induction false} DecodedTokens(ts: seq<Token>)
    ensures Decoded(MatchesOf(ts)) == TokenGlyphs(ts)
  {
    if ts != [] {
      assert MatchesOf(ts)[1..] == MatchesOf(ts[1..]);
      Entities.DecodeEscape(ts[0].text);
      DecodedTokens(ts[1..]);
    }
  }

  /**
   * For tokens the scanner can read whose characters are the source code,
   * parsing cannot fail, there is one bucket per source line, bucket `j`
   * holds line `j` of the tokens' coloured text and its characters are
   * exactly source line `j`.
   */
  lemma ParseTokens(code: string, ts: seq<Token>, mode: Mode)
    requires WellFormed(ts) && Readable(ts, mode) && Chars(TokenGlyphs(ts)) == code
    ensures Parsed(code, Emit(ts), mode).Ok?
    ensures var b := Parsed(code, Emit(ts), mode).value;
      && |b| == |Lines(code)| == |GlyphLines(TokenGlyphs(ts))|
      && forall j :: 0 <= j < |b| ==>
           Glyphs(b[j]) == GlyphLines(TokenGlyphs(ts))[j] && Texts(b[j]) == Lines(code)[j] && SpansFit(b[j])
  {
    var g := TokenGlyphs(ts);
    ScanEmitted(ts, mode);
    DecodedTokens(ts);
    GlyphLinesChars(g);
    ParseLossless(code, Emit(ts), mode);
    var b := Parsed(code, Emit(ts), mode).value;
    forall j | 0 <= j < |b|
      ensures Texts(b[j]) == Lines(code)[j]
    {
      assert Chars(Glyphs(b[j])) == Texts(b[j]);
    }
  }

  /** With content allowed to span lines, every well-formed token sequence is read back losslessly. */
  lemma ParseHighlighted(code: string, ts: seq<Token>)
    requires WellFormed(ts) && Chars(TokenGlyphs(ts)) == code
    ensures Parsed(code, Emit(ts), DotAll).Ok?
    ensures var b := Parsed(code, Emit(ts), DotAll).value;
      && |b| == |Lines(code)| == |GlyphLines(TokenGlyphs(ts))|
      && forall j :: 0 <= j < |b| ==> Glyphs(b[j]) == GlyphLines(TokenGlyphs(ts))[j] && Texts(b[j]) == Lines(code)[j]
  {
    assert Readable(ts, DotAll);
    ParseTokens(code, ts, DotAll);
  }

  /**
   * As written, a highlighted token whose text has a line break reaches the
   * buckets as its markup: the opening tag and the closing tag, each without
   * its `<`, around the text, all in the default colour.
   */
  lemma MultiLineElementLeaks(cls: string, text: string)
    requires IsClassName(cls) && '\n' in text
    ensures Decoded(Matches(Emit([Styled(cls, text)]), AsWritten))
         == Paint(Open[1..] + cls + OpenEnd + text + Close[1..], DefaultColor)
    ensures Decoded(Matches(Emit([Styled(cls, text)]), AsWritten)) != TokenGlyphs([Styled(cls, text)])
  {
    var prefix := Open[1..] + cls + OpenEnd;
    TagPrefixPlain(cls);
    LeakedMatches(cls, text);
    LeakedText(prefix, text);
    LeakLonger(prefix, cls, text);
  }

  /** The opening tag after its `<` holds no ampersand. */
  lemma TagPrefixPlain(cls: string)
    requires IsClassName(cls)
    ensures '&' !in Open[1..] + cls + OpenEnd
  {
    assert forall i :: 0 <= i < |cls| ==> Text.IsClassChar(cls[i]);
  }

  /** The leaked markup is longer than the token's text. */
  lemma LeakLonger(prefix: string, cls: string, text: string)
    requires prefix == Open[1..] + cls + OpenEnd
    ensures |Paint(prefix + text + Close[1..], DefaultColor)| > |TokenGlyphs([Styled(cls, text)])|
  {
    assert TokenGlyphs([Styled(cls, text)]) == Paint(text, TokenColor(Styled(cls, text))) + TokenGlyphs([]);
  }

  lemma LeakedMatches(cls: string, text: string)
    requires IsClassName(cls) && '\n' in text
    ensures Matches(Emit([Styled(cls, text)]), AsWritten)
         == [Match(None, Open[1..] + cls + OpenEnd + Entities.Escape(text)), Match(None, Close[1..])]
  {
    var raw := Entities.Escape(text);
    assert '\n' in raw;
    var q :| 0 <= q < |raw| && raw[q] == '\n';
    assert Emit([Styled(cls, text)]) == ElementText(cls, raw);
    ScanMultiLineElement(cls, raw, q);
  }

  lemma LeakedText(prefix: string, text: string)
    requires '&' !in prefix
    ensures Decoded([Match(None, prefix + Entities.Escape(text)), Match(None, Close[1..])])
         == Paint(prefix + text + Close[1..], DefaultColor)
  {
    var raw := Entities.Escape(text);
    Entities.DecodeIgnoresPlainPrefix(prefix, raw);
    Entities.DecodeEscape(text);
    Entities.NoAmpersandUnchanged(Close[1..]);
    var ms := [Match(None, prefix + raw), Match(None, Close[1..])];
    DecodedPair(ms[0], ms[1]);
    PaintAppend(prefix + text, Close[1..], DefaultColor);
  }

  lemma DecodedPair(a: Match, b: Match)
    ensures Decoded([a, b]) == MatchGlyphs(a) + MatchGlyphs(b)
  {
    assert [a, b][1..] == [b];
    assert [b][1..] == [];
    assert Decoded([b]) == MatchGlyphs(b) + [];
    assert MatchGlyphs(b) + [] == MatchGlyphs(b);
  }

  /** Coloured text with its line breaks removed. */
  function NoBreaks(g: seq<Glyph>): seq<Glyph>
  {
    if g == [] then []
    else NoBreaks(g[..|g| - 1]) + (if g[|g| - 1].ch == '\n' then [] else [g[|g| - 1]])
  }

  /** The lines of coloured text, one after the other, are the text without its line breaks. */
  lemma {:induction false} FlattenGlyphLines(g: seq<Glyph>)
    ensures Flatten(GlyphLines(g)) == NoBreaks(g)
    decreases |g|
  {
    if g != [] {
      var g', x := g[..|g| - 1], g[|g| - 1];
      var L := GlyphLines(g');
      FlattenGlyphLines(g');
      if x.ch == '\n' {
        assert (L + [[]])[..|L|] == L;
      } else {
        var L' := L[..|L| - 1] + [L[|L| - 1] + [x]];
        assert L'[..|L'| - 1] == L[..|L| - 1];
        assert Flatten(L) == Flatten(L[..|L| - 1]) + L[|L| - 1];
      }
    }
  }
}
