# Code picture: from highlighted markup to a painted canvas

This project models the core of the VS Code extension that paints a code selection as a PNG image (`codeToImage` in `src/extension.ts`). It covers the pipeline from the syntax highlighter's markup to the canvas draw commands:

1. **Decoding** (`Entities`). `decodeHTMLEntities` applies its six-entry `entities` table in one global, left-to-right, non-overlapping replace pass.
2. **Parsing and bucketing** (`Scanner`, `Parser`).
   - Scanning: the markup is scanned by the global regular expression `<span class="([\w-]+)">(.*?)<\/span>|([^<]+)` with repeated `exec` calls. Each match's captured text is decoded and split at `\n`.
   - Buckets: every line break moves bucket and character position on. Every non-empty piece is pushed onto the current bucket, coloured through `colorMap` (`Palette`). There is one bucket per line of the source code.
   - Overflow: a piece that would go to a bucket past the last one throws in the source. The model returns `Err(LineOutOfRange(line))` instead.
3. **Wrapping** (`Wrapper`).
   - Words: every span of a bucket is cut on its own into words, the maximal whitespace and non-whitespace runs of its text, as `split(/(\s+)/)` gives them. A word never crosses a span boundary, so a display line can also break where the colour changes inside one run of non-whitespace (between `foo` and `(bar)`, say).
   - Placing: words are placed greedily. A word that would pass the content width closes the current display line, if it holds anything. Continuation lines are indented by the leading whitespace of the bucket's first span.
4. **Layout and paint** (`Painter`).
   - Canvas size: the content width plus padding, by the line count times the line height plus padding.
   - Draws: one fill per span, on line `i`'s baseline `padding + (i + 1) * lineHeight`, at an `x` that starts after the padding and indent and advances by each span's measured width.
5. **The whole rendering** (`Pipeline`) chains the three stages.

The metrics (scale 2, font size 28, line height 42, padding 48, character width 16.8, content width 2016) are in `Metrics`. `Derivation` checks each value against the formula the source computes it with.

The imperative parts of the source are Dafny methods with loops:
- the `exec` loop with its nested `forEach` over pieces: `Parser.Parse`, whose loop body is `Parser.ExecStep`, and `Parser.PushPieces`;
- the wrapper's three nested `forEach` loops: `Wrapper.Wrap`, `Wrapper.WrapSpans` and `Wrapper.PlaceSpan`, whose loop body is `Wrapper.PlaceOne`;
- the paint loop: `Painter.PaintLines`, whose per-line body is `Painter.DrawLine`.

Each method is proved equal to a specification function (`Parsed`, `WrapBucket`/`WrapAll`, `AllDraws`). The properties are proved about those functions.

Two kinds of inputs are parameters:
- **Measuring text.** The text measurer `ctx.measureText(text).width` is a parameter `measure: string -> Width`, where `Width` is a non-negative real.
- **The highlighter's output.** The markup string `html` is an input. To state what the parser should read back, the model also has `Scanner.Token`, a flat token sequence, and `Emit`, the markup the model assumes for it: each token's text escaped in the forms of the decoder's own table, a highlighted token wrapped in one element with one class.

The lazy `(.*?)` of the regular expression comes in two modes:
- `AsWritten`: JavaScript's `.`, which refuses `\n`, `\r`, U+2028 and U+2029;
- `DotAll`: the reading that content spanning several lines needs (see Findings).

Two behaviours of the code are modelled as they are:
- `exec` skips a `<` that starts no element, so that `<` is lost and only the text after it is read as plain text.
- A non-empty piece past the last bucket throws in the source; the model returns `LineOutOfRange`.

## Model

| member | source | states |
|---|---|---|
| `Entities.ReferenceFrom` | src/extension.ts:153 | Trying the alternatives from the `k`-th on finds the first one the text starts with, and when it finds none, none of those alternatives matches. |
| `Entities.ReferenceAt` | src/extension.ts:152-153 | The alternation picks the first listed reference the text starts with, and none when no reference starts there. |
| `Entities.Decode` | src/extension.ts:150-156 | The decoded text is never longer than the input. |
| `Entities.DecodeReference` | src/extension.ts:122-129 | Each of the six references, followed by anything, decodes to its table character, and the pass resumes right after it. |
| `Entities.Distinct` | src/extension.ts:122-129 | No table key is a prefix of another key followed by more text, so the alternation order never changes the result. |
| `Entities.NoReferenceUnchanged` | src/extension.ts:152-155 | Text in which no reference starts anywhere is returned unchanged. |
| `Entities.NoAmpersandUnchanged` | src/extension.ts:152-155 | Text without `&` is returned unchanged. |
| `Entities.Escape` | src/extension.ts:122-129 | The escaped form of a text holds no `<`, is at least as long, is empty only for empty text, and keeps exactly the text's line terminators. |
| `Entities.DecodeEscapeChar` | src/extension.ts:122-129 | Decoding inverts escaping of one character, whatever follows it. |
| `Entities.DecodeEscape` | src/extension.ts:150-156 | Round trip: decoding escaped text gives the text back. |
| `Entities.DecodeExamples` | src/extension.ts:151 | Empty text decodes to empty text, and `&lt;div&gt;` decodes to `<div>`. |
| `Entities.DecodeEnclosed` | src/extension.ts:152-155 | Text between `&lt;` and `&gt;` comes out between `<` and `>`. |
| `Entities.DecodeSinglePass` | src/extension.ts:152-155 | The replace does not rescan its output: `&amp;lt;` decodes to `&lt;`. |
| `Entities.DecodeIgnoresPlainPrefix` | src/extension.ts:152-155 | A prefix without `&` passes through unchanged, and the rest decodes on its own. |
| `Entities.NumericKept` | src/extension.ts:122-129 | A numeric reference that does not start with the key `&#39;`, with no `&` after its first character, is returned unchanged: the table has no other numeric key. That covers, for example, `&#390;` and `&#39` without its semicolon. |
| `Entities.OtherFormsKept` | src/extension.ts:150-156 | `&#x27;`, `&#34;` and `&#x22;` decode to themselves: only `&#39;`, `&apos;` and `&quot;` stand for the quotes. `&#390;` decodes to itself too. |
| `Palette.ColorOf` | src/extension.ts:132-147 | Every colour is a `#RRGGBB` hex colour. A class in the palette gets its entry (line 202), and plain text or an unknown class gets `#ABB2BF`. |
| `Metrics.Derivation` | src/extension.ts:168-177 | Each metric equals its formula: font size 14·scale, line height 1.5·font size, padding 24·scale, radius 12·scale, character width 0.6·font size, content width 120 characters. |
| `Scanner.ClassRun` | src/extension.ts:184 | The greedy `[\w-]+` ends exactly at the first non-class character. |
| `Scanner.PlainRun` | src/extension.ts:184 | The greedy `[^<]+` ends exactly at the first `<`. |
| `Scanner.CloseFrom` | src/extension.ts:184 | The lazy `(.*?)<\/span>` stops at a `</span>`. Every character before that close may be content, and no earlier `</span>` exists. |
| `Scanner.ElementAt` | src/extension.ts:184-187 | The element alternative, tried at the start of the text, takes a non-empty prefix of it (what that prefix is, `ElementSound` states). |
| `Scanner.ElementSound` | src/extension.ts:184 | A matched element is a well-formed element with a `[\w-]+` class. Its content is the shortest one, and as written it holds no line terminator. |
| `Scanner.NextMatch` | src/extension.ts:187 | Each `exec` step consumes at least one character. Text not starting with `<` always matches. |
| `Scanner.PlainSound` | src/extension.ts:184 | A plain match is a maximal run without `<`, with no class captured. |
| `Scanner.Matches` | src/extension.ts:184-187 | The repeated `exec` gives at most one match per character of the markup, and every plain match is a non-empty text without `<`. |
| `Scanner.ElementFound` | src/extension.ts:184 | Completeness: markup starting with a well-formed element whose content has no `<` (and, as written, no line terminator) is matched as exactly that element. |
| `Scanner.ElementLayout` | src/extension.ts:184 | Where the class, the content and the closing tag sit in markup that starts with an element. |
| `Scanner.PlainRunExact` | src/extension.ts:184 | A run without `<` that ends at a `<` or at the end is exactly what the plain alternative takes. |
| `Scanner.ScanToken` | src/extension.ts:184-187 | One emitted token in front of further markup is scanned as exactly that token. |
| `Scanner.ScanEmitted` | src/extension.ts:184-190 | Round trip: scanning the markup of well-formed, readable tokens reports exactly those tokens, in order. |
| `Scanner.WellFormedTail` | src/extension.ts:184 | Well-formedness and readability carry over to the tail of a token sequence. |
| `Scanner.CloseRefused` | src/extension.ts:184 | The lazy content fails at a character it may not hold before any `</span>`. |
| `Scanner.ElementRefused` | src/extension.ts:184 | As written, an element whose content holds a line terminator is not matched as an element. |
| `Scanner.OpenTailPlain` | src/extension.ts:184 | Without its `<`, such an element's text up to the closing tag is a single plain run. |
| `Scanner.ScanClose` | src/extension.ts:184 | A lone `</span>` is read as `/span>`: the `<` is skipped. |
| `Scanner.ScanMultiLineElement` | src/extension.ts:184-187 | As written, an element spanning a line break is read as two plain runs: its text without the leading `<`, then `/span>`. |
| `Parser.Lines` | src/extension.ts:165 | `split("\n")` gives at least one piece, and no piece holds a `\n`. |
| `Parser.JoinLines` | src/extension.ts:165 | Joining the pieces with `\n` gives the text back. |
| `Parser.GlyphLinesAppend` | src/extension.ts:192-197 | Cutting a concatenation continues the last line of the first part with the first line of the second. |
| `Parser.GlyphLinesChars` | src/extension.ts:192-197 | Cutting coloured text at its line breaks gives as many lines as `split("\n")` of its characters, and line `j`'s characters are piece `j`. |
| `Parser.EmptyBuckets` | src/extension.ts:180 | One empty bucket per source line. |
| `Parser.BreakStep` | src/extension.ts:194-197 | A line break never throws and changes no bucket: it moves to the next line, at position 0. |
| `Parser.TextStep` | src/extension.ts:199-206 | A piece throws exactly when it is non-empty and its line is past the last bucket. Otherwise an empty piece changes nothing; a non-empty one adds exactly one span, with its text and colour and starting at the current position, to the end of the current bucket, leaves every other bucket as it was, and moves the position past itself. |
| `Parser.PiecesFailed` | src/extension.ts:199 | Once the bucketing has failed, later pieces change nothing. |
| `Parser.RunFailed` | src/extension.ts:187 | Once the bucketing has failed, later matches change nothing. |
| `Parser.PushPieces` | src/extension.ts:192-207 | The `forEach` over one match's pieces computes the fold over those pieces. A break advances the line and resets the position. A non-empty piece is pushed with its colour and start, or fails past the last bucket. |
| `Parser.Parse` | src/extension.ts:180-208 | The `exec` loop computes `Parsed`, the fold over all matches, starting from one empty bucket per source line. |
| `Parser.ExecStep` | src/extension.ts:187-207 | One `exec` call and its callback consume at least one character of the markup. When nothing throws, the new state with the rest of the markup leads to the same final result as the old state with the markup before; when a push throws, the final result is that failure. |
| `Parser.RunSkip` | src/extension.ts:187 | A `<` that starts no element is skipped. |
| `Parser.RunFound` | src/extension.ts:187-190 | A match is folded in, and scanning resumes after it. |
| `Parser.ConsistentStart` | src/extension.ts:179-182 | The losslessness invariant holds before the first match. |
| `Parser.ConsistentBreak` | src/extension.ts:193-196 | A line break keeps the invariant: the next bucket starts at position 0. |
| `Parser.ConsistentText` | src/extension.ts:199-206 | A pushed piece keeps the invariant: the bucket's coloured text grows by the piece, and its start is the bucket's length so far. |
| `Parser.ConsistentFailed` | src/extension.ts:199 | A failure at the first non-empty line past the last bucket stays described that way, whatever text follows. |
| `Parser.ConsistentPieces` | src/extension.ts:192-207 | One match's pieces keep the invariant. |
| `Parser.ConsistentMatch` | src/extension.ts:188-207 | One decoded match keeps the invariant. |
| `Parser.ConsistentRun` | src/extension.ts:187-208 | All matches keep the invariant. |
| `Parser.ParseLossless` | src/extension.ts:180-208 | Bucketing succeeds exactly when the decoded text has no non-empty line beyond the source's last line. On success, bucket `j` holds exactly line `j` of the decoded coloured text, with each span's start its offset in the line. Otherwise the error names the first such line. |
| `Parser.DecodedTokens` | src/extension.ts:188-189 | Decoding the matches of emitted tokens gives back the tokens' coloured text. |
| `Parser.ParseTokens` | src/extension.ts:180-208 | For readable, well-formed tokens whose characters are the code: parsing succeeds, there is one bucket per source line, and bucket `j`'s text is source line `j` in the tokens' colours. |
| `Parser.ParseHighlighted` | src/extension.ts:184 | With content allowed to span lines, every well-formed token sequence is bucketed losslessly. |
| `Parser.MultiLineElementLeaks` | src/extension.ts:184-204 | As written, a highlighted token whose text has a line break reaches the buckets as its markup without the two `<`, in the default colour. This differs from the token's coloured text. |
| `Parser.FlattenGlyphLines` | src/extension.ts:192-197 | The lines of coloured text, one after another, are the text without its line breaks. |
| `Spans.Glyphs` | src/extension.ts:199-204 | The characters of the spans' coloured text are the spans' texts. |
| `Spans.GlyphsAppend` | src/extension.ts:199-204 | The coloured text of concatenated spans is the concatenation. |
| `Spans.FlatGlyphsFlatten` | src/extension.ts:219 | Buckets equal to given lines give, taken in order, the lines' concatenation. |
| `Wrapper.RunFrom` | src/extension.ts:229-239 | A whitespace (or non-whitespace) run ends exactly where the kind changes, as `/^\s+/` (line 229) and the runs of `split(/(\s+)/)` (line 239) take it. |
| `Wrapper.LeadingSpace` | src/extension.ts:229-231 | The indent is the length of the whitespace prefix: every character before it is whitespace and the one at it, if any, is not. |
| `Wrapper.Indent` | src/extension.ts:223-234 | A bucket's indent is 0 without spans; otherwise its first span's text starts with exactly that many whitespace characters, followed by a non-whitespace one or the end. |
| `Wrapper.Runs` | src/extension.ts:239 | The words of a text are non-empty, and each is all whitespace or all non-whitespace. |
| `Wrapper.ConcatRuns` | src/extension.ts:239-241 | Splitting a text into words loses nothing. |
| `Wrapper.RunsAlternate` | src/extension.ts:239 | Neighbouring words are of different kinds, so every word is a maximal run. |
| `Wrapper.PlaceWord` | src/extension.ts:243-261 | Placing a word makes it the last span of the current line, starting where the line had reached. It closes exactly one display line when the word would pass the content width behind a non-empty line, and none otherwise. |
| `Wrapper.PlaceWordKeeps` | src/extension.ts:241-262 | Placing one word keeps the layout invariant. |
| `Wrapper.PlaceAllKeeps` | src/extension.ts:236-263 | Placing any sequence of words keeps the layout invariant. |
| `Wrapper.WrapBucketLaid` | src/extension.ts:218-268 | A bucket's display lines are laid out (see the next sentences), they hold exactly the bucket's words in order, and there are none only when the bucket has no words. Laid out means: no line is empty; the first has indent 0 and the rest the bucket's indent; each line's spans start at 0 (first line) or at indent·charWidth, each following where the previous ends; every span after a line's first ends within the content width; a line is closed only when the next word would pass it. |
| `Wrapper.OverWideAlone` | src/extension.ts:246-256 | A span that passes the content width stands first on its display line. On a line with several spans, every span ends within the width. |
| `Wrapper.WrapBucketLossless` | src/extension.ts:236-268 | Wrapping loses no text or colour: the display lines' coloured text is the bucket's. Every span is a non-empty single-kind word, and an empty bucket gives no display line. |
| `Wrapper.WrapSpans` | src/extension.ts:218-268 | The per-bucket `forEach` computes `WrapBucket`. |
| `Wrapper.PlaceSpan` | src/extension.ts:236-263 | One span's word loop places that span's words, in order, onto the wrapper's state. |
| `Wrapper.PlaceOne` | src/extension.ts:243-261 | One pass of the word loop moves the wrapper's state exactly as `PlaceWord` does: it breaks the line only when the word would pass the content width behind a non-empty line, then places the word at the current width. |
| `Wrapper.Wrap` | src/extension.ts:218-269 | The loop over buckets appends each bucket's display lines in order. |
| `Wrapper.WrapAllLossless` | src/extension.ts:218-269 | The coloured text of all display lines is that of all buckets, in order. |
| `Painter.CanvasWidth` | src/extension.ts:272 | The canvas is 120 estimated characters wide, plus the padding on each side. |
| `Painter.CanvasHeight` | src/extension.ts:273 | The canvas is exactly tall enough: every baseline is at least the padding above the bottom, the last one exactly the padding. With no lines it is twice the padding. |
| `Painter.Baseline` | src/extension.ts:301 | The first baseline is one line height below the top padding, and each next one a line height lower. |
| `Painter.LineStart` | src/extension.ts:302-307 | A line's first draw is at the padding plus `indent` estimated characters, for every indent: the `indent > 0` test makes no difference. |
| `Painter.DrawsFrom` | src/extension.ts:309-313 | One draw per span. |
| `Painter.DrawsFromAt` | src/extension.ts:309-313 | Each span is drawn with its own text and colour on the line's baseline. The first is drawn at the start `x`, and each next one after the previous one's measured width. |
| `Painter.DrawnAtStarts` | src/extension.ts:300-313 | On a laid-out display line, every span is drawn at the padding plus the start the wrapper gave it. |
| `Painter.DrawsInsideCanvas` | src/extension.ts:272-313 | Within one source line's display lines (one bucket's laid-out lines, numbered from 0), every draw starts after the left padding and has its baseline between the top and bottom padding; on a line of several spans it also ends before the right padding. |
| `Painter.AllDrawsBlock` | src/extension.ts:300-302 | The draws of display line `i` form one block on baseline `padding + (i + 1)·lineHeight`, after those of the lines before it. |
| `Painter.AllDrawsGlyphs` | src/extension.ts:300-313 | Exactly the coloured text of the display lines is drawn, in order. |
| `Painter.PaintLines` | src/extension.ts:271-314 | The canvas is content width plus padding wide, and line count times line height plus padding high. The paint loop issues exactly `AllDraws`. |
| `Painter.DrawLine` | src/extension.ts:300-313 | Painting display line `lineIndex` appends exactly that line's draws, `LineDraws`: one per span, with its text and colour, on baseline padding + (lineIndex + 1)·lineHeight, from the indented start onward. |
| `Pipeline.CodeToImage` | src/extension.ts:157-318 | Parsing, then wrapping, then painting compute `Rendered`. A parse error ends the rendering. |
| `Pipeline.RenderTokens` | src/extension.ts:157-318 | With content allowed to span lines, rendering well-formed tokens whose characters are the code succeeds. It draws exactly the code's characters except line breaks, in order, each in its token's colour. |
| `Pipeline.RenderReadable` | src/extension.ts:157-318 | In either mode, rendering well-formed tokens whose characters are the code succeeds when the mode's `.` accepts every highlighted character (as written: no line break inside a highlighted token). It draws exactly the code's characters except line breaks, in order, each in its token's colour. |

## Left out

- The highlighter (`hljs.highlight`) is not modelled. Its markup is an input, and `Scanner.Token` with `Emit` describes the flat, single-class markup the model expects of it.
- Text measuring (`measureText`, and setting its font from the editor configuration) is a parameter `measure`. The model only assumes that a width is a non-negative real.
- The source measures on two canvases: `measureCtx` while wrapping (lines 211-215 and 243) and the picture's `ctx` while painting (lines 297 and 312). The model uses one `measure` for both, taking the two to agree because both are set to the same font string. `Painter.DrawnAtStarts` and `Painter.DrawsInsideCanvas` rely on that.
- Scanner.Emit escapes only in the forms of the decoder's table (`&#39;` for `'`). Markup escaped otherwise, for example `&#x27;` or `&#34;`, keeps those references in the picture as literal text: `Entities.OtherFormsKept` shows the decoder leaves them alone. What the highlighter really emits is not part of this model.
- Pixel arithmetic is on exact reals, not IEEE doubles. A rounding effect of floating point on `currentWidth + wordWidth > maxContentWidth` is not captured.
- String lengths are counted in Unicode scalar values, while JavaScript counts UTF-16 code units. The span `start` positions differ from the source's after a character outside the Basic Multilingual Plane.
- `colorMap[className]` on an object literal also finds inherited properties: a class named `constructor` would get a function, not a colour. The palette is modelled as a plain map, so such a class gets the default colour.
- Markup outside the flat token model is scanned by the same scanner, but no lemma describes the result. This covers elements nested inside elements, and class attributes holding several classes separated by spaces.
- The canvas itself is not modelled: the rounded-rectangle background path, fill, font smoothing and PNG encoding.
- The VS Code commands, the editor selection, notifications, the save dialog, file writing and the clipboard are not modelled (the rest of `src/extension.ts`, and `src/i18n/`). They are I/O around `codeToImage`.

## Findings

| source | as written | input that shows it | evidently intended | confidence | as-written member | corrected member |
|---|---|---|---|---|---|---|
| src/extension.ts:184 | The content `(.*?)` uses `.`, which does not match a line break. A highlighted element whose text spans lines fails to match. `exec` then skips its `<`, and the tag text becomes plain text in the default colour. | `<span class="hljs-comment">/* a\n b */</span>`, which is the markup of a two-line block comment. As written, `span class="hljs-comment">/* a` ends line 0 and ` b */` followed by `/span>` makes line 1, all in `#ABB2BF`. | Element content may span lines, as with the `s` flag. The comment is then bucketed as `/* a` and ` b */` in `#5C6370`. | not executed | `Parser.MultiLineElementLeaks` (via `Scanner.ScanMultiLineElement`) | `Parser.ParseHighlighted` and `Pipeline.RenderTokens` in mode `DotAll` |
