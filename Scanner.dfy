/**
 * The markup scanner: the global regular expression
 *   <span class="([\w-]+)">(.*?)<\/span>|([^<]+)
 * applied with repeated `exec` calls to the highlighter's markup, written out
 * by hand over strings.
 *
 * `Mode` selects what the lazy content `(.*?)` may contain: `AsWritten` is
 * JavaScript's `.`, which refuses line terminators; `DotAll` accepts every
 * character, which is what a highlighted element spanning several source
 * lines needs.
 */
module Scanner {
  import opened Wrappers
  import opened Text
  import Entities

  datatype Mode = AsWritten | DotAll

  /** One match: the captured class (absent for a plain run) and the captured raw text. */
  datatype Match = Match(cls: Option<string>, raw: string)

  const Open: string := "<span class=\""
  const OpenEnd: string := "\">"
  const Close: string := "</span>"

  predicate ContentChar(c: char, mode: Mode)
  {
    mode == DotAll || !IsLineTerminator(c)
  }

  predicate IsClassName(cls: string)
  {
    |cls| > 0 && forall i :: 0 <= i < |cls| ==> IsClassChar(cls[i])
  }

  /** The text of a highlighted element with class `cls` around `raw`. */
  function ElementText(cls: string, raw: string): string
  {
    Open + cls + OpenEnd + raw + Close
  }

  /** The greedy `[\w-]+`: the length of the longest prefix of class characters. */
  function ClassRun(s: string): (n: nat)
    ensures n <= |s|
    ensures forall i :: 0 <= i < n ==> IsClassChar(s[i])
    ensures n < |s| ==> !IsClassChar(s[n])
  {
    if s == [] || !IsClassChar(s[0]) then 0 else 1 + ClassRun(s[1..])
  }

  /** The greedy `[^<]+` (without its lower bound): the length of the longest prefix without `<`. */
  function PlainRun(s: string): (n: nat)
    ensures n <= |s|
    ensures forall i :: 0 <= i < n ==> s[i] != '<'
    ensures n < |s| ==> s[n] == '<'
  {
    if s == [] || s[0] == '<' then 0 else 1 + PlainRun(s[1..])
  }

  /**
   * The lazy `(.*?)<\/span>` tried from offset `k` of `s`: the first offset
   * at which `</span>` starts, provided every character before it may be
   * content.
   */
  function CloseFrom(s: string, k: nat, mode: Mode): (r: Option<nat>)
    requires k <= |s|
    ensures r.Some? ==> k <= r.value <= |s| && StartsWith(s[r.value..], Close)
    ensures r.Some? ==> forall i :: k <= i < r.value ==> ContentChar(s[i], mode)
    ensures r.Some? ==> NoCloseIn(s, k, r.value)
    decreases |s| - k
  {
    if StartsWith(s[k..], Close) then Some(k)
    else if k == |s| || !ContentChar(s[k], mode) then None
    else CloseFrom(s, k + 1, mode)
  }

  /** Where an element's content starts, after the opening tag. */
  function ContentStart(cls: string): nat
  {
    |Open| + |cls| + |OpenEnd|
  }

  /** No `</span>` starts in `s` at an offset in `[from, to)`. */
  predicate NoCloseIn(s: string, from: nat, to: nat)
  {
    forall i :: from <= i < to && i <= |s| ==> !StartsWith(s[i..], Close)
  }

  /**
   * The first alternative at the start of `s`: the element's class and
   * content, and how many characters the whole element takes. The content
   * is the shortest one: no `</span>` starts inside it.
   */
  function ElementAt(s: string, mode: Mode): (r: Option<(Match, nat)>)
    ensures r.Some? ==> 0 < r.value.1 <= |s|
  {
    if !StartsWith(s, Open) then None
    else
      var n := ClassRun(s[|Open|..]);
      if n == 0 || !StartsWith(s[|Open| + n..], OpenEnd) then None
      else
        var c := |Open| + n + |OpenEnd|;
        match CloseFrom(s, c, mode)
        case None => None
        case Some(e) => Some((Match(Some(s[|Open|..|Open| + n]), s[c..e]), e + |Close|))
  }

  /**
   * Soundness of the first alternative: what it takes is a well-formed
   * element whose content is the shortest possible (no `</span>` starts
   * inside it) and, as written, holds no line terminator.
   */
  lemma ElementSound(s: string, mode: Mode)
    requires ElementAt(s, mode).Some?
    ensures var (m, n) := ElementAt(s, mode).value;
      && m.cls.Some? && IsClassName(m.cls.value)
      && s[..n] == ElementText(m.cls.value, m.raw)
      && (forall i :: 0 <= i < |m.raw| ==> ContentChar(m.raw[i], mode))
      && NoCloseIn(s, ContentStart(m.cls.value), ContentStart(m.cls.value) + |m.raw|)
  {
    var n := ClassRun(s[|Open|..]);
    var c := |Open| + n + |OpenEnd|;
    var e := CloseFrom(s, c, mode).value;
    var cls, raw := s[|Open|..|Open| + n], s[c..e];
    ElementParts(s, cls, raw);
    assert IsClassName(cls) by {
      assert forall i :: 0 <= i < n ==> cls[i] == s[|Open|..][i];
    }
  }

  lemma ElementParts(s: string, cls: string, raw: string)
    requires StartsWith(s, Open)
    requires |Open| + |cls| + |OpenEnd| + |raw| <= |s|
    requires s[|Open|..|Open| + |cls|] == cls
    requires StartsWith(s[|Open| + |cls|..], OpenEnd)
    requires s[ContentStart(cls)..ContentStart(cls) + |raw|] == raw
    requires StartsWith(s[ContentStart(cls) + |raw|..], Close)
    ensures s[..ContentStart(cls) + |raw| + |Close|] == ElementText(cls, raw)
  {
    var a, b, c := |Open|, |Open| + |cls|, ContentStart(cls);
    var e := c + |raw|;
    var E := e + |Close|;
    assert s[..a] == Open;
    assert s[b..c] == OpenEnd by {
      assert s[b..][..|OpenEnd|] == s[b..c];
    }
    assert s[e..E] == Close by {
      assert s[e..][..|Close|] == s[e..E];
    }
    assert s[..b] == Open + cls by {
      assert s[..b] == s[..a] + s[a..b];
    }
    assert s[..c] == Open + cls + OpenEnd by {
      assert s[..c] == s[..b] + s[b..c];
    }
    assert s[..e] == Open + cls + OpenEnd + raw by {
      assert s[..e] == s[..c] + s[c..e];
    }
    assert s[..E] == s[..e] + s[e..E];
  }

  /**
   * One `exec` step at the start of `s`: an element when `s` starts with
   * `<`, a maximal plain run otherwise; `None` when `exec` would move on by
   * one character, dropping the `<`.
   */
  function NextMatch(s: string, mode: Mode): (r: Option<(Match, nat)>)
    requires s != []
    ensures r.Some? ==> 0 < r.value.1 <= |s|
    ensures s[0] != '<' ==> r.Some?
  {
    if s[0] == '<' then
      ElementAt(s, mode)
    else
      var n := PlainRun(s);
      Some((Match(None, s[..n]), n))
  }

  /** Soundness of the second alternative: a plain match is a maximal run without `<`. */
  lemma PlainSound(s: string, mode: Mode)
    requires s != [] && s[0] != '<'
    ensures var (m, n) := NextMatch(s, mode).value;
      && m.cls.None? && m.raw == s[..n]
      && (forall i :: 0 <= i < n ==> s[i] != '<')
      && (n < |s| ==> s[n] == '<')
  {
  }

  /**
   * All matches of the repeated `exec`, in order. Each takes at least one
   * character, and a plain match is a non-empty text without `<`.
   */
  function Matches(s: string, mode: Mode): (ms: seq<Match>)
    ensures |ms| <= |s|
    ensures forall i :: 0 <= i < |ms| && ms[i].cls.None? ==> ms[i].raw != [] && '<' !in ms[i].raw
    decreases |s|
  {
    if s == [] then []
    else match NextMatch(s, mode)
      case None => Matches(s[1..], mode)
      case Some((m, n)) => [m] + Matches(s[n..], mode)
  }

  lemma {:induction false} CloseFound(s: string, k: nat, e: nat, mode: Mode)
    requires k <= e <= |s| && StartsWith(s[e..], Close)
    requires forall i :: k <= i < e ==> ContentChar(s[i], mode)
    requires NoCloseIn(s, k, e)
    ensures CloseFrom(s, k, mode) == Some(e)
    decreases e - k
  {
    if k < e {
      CloseFound(s, k + 1, e, mode);
    }
  }

  lemma {:induction false} ClassRunExact(t: string, cls: string)
    requires |cls| < |t| && t[..|cls|] == cls && !IsClassChar(t[|cls|])
    requires forall i :: 0 <= i < |cls| ==> IsClassChar(cls[i])
    ensures ClassRun(t) == |cls|
  {
    if cls != [] {
      assert t[0] == cls[0];
      assert t[1..][..|cls| - 1] == cls[1..];
      ClassRunExact(t[1..], cls[1..]);
    }
  }

  /**
   * Completeness of the first alternative: markup that starts with a
   * well-formed element whose content holds no `<` (and, as written, no line
   * terminator) is matched as exactly that element.
   */
  lemma ElementFound(s: string, cls: string, raw: string, mode: Mode)
    requires StartsWith(s, ElementText(cls, raw))
    requires IsClassName(cls)
    requires forall i :: 0 <= i < |raw| ==> ContentChar(raw[i], mode) && raw[i] != '<'
    ensures ElementAt(s, mode) == Some((Match(Some(cls), raw), |ElementText(cls, raw)|))
  {
    var c := ContentStart(cls);
    var e := c + |raw|;
    ElementLayout(s, cls, raw);
    ClassRunExact(s[|Open|..], cls);
    forall i | c <= i < e
      ensures ContentChar(s[i], mode) && s[i] != '<'
    {
      assert s[i] == raw[i - c];
    }
    assert NoCloseIn(s, c, e) by {
      forall i | c <= i < e && i <= |s|
        ensures !StartsWith(s[i..], Close)
      {
        assert s[i..][0] == s[i];
      }
    }
    CloseFound(s, c, e, mode);
  }

  /** Where the parts of an element sit in markup that starts with it. */
  lemma ElementLayout(s: string, cls: string, raw: string)
    requires StartsWith(s, ElementText(cls, raw))
    ensures StartsWith(s, Open)
    ensures |cls| < |s[|Open|..]| && s[|Open|..][..|cls|] == cls && s[|Open|..][|cls|] == '"'
    ensures s[|Open|..|Open| + |cls|] == cls
    ensures StartsWith(s[|Open| + |cls|..], OpenEnd)
    ensures s[ContentStart(cls)..ContentStart(cls) + |raw|] == raw
    ensures StartsWith(s[ContentStart(cls) + |raw|..], Close)
    ensures forall i :: ContentStart(cls) <= i < ContentStart(cls) + |raw| ==> s[i] == raw[i - ContentStart(cls)]
  {
    var el := ElementText(cls, raw);
    var c := ContentStart(cls);
    var e := c + |raw|;
    assert s[..|el|] == el;
    assert forall i :: 0 <= i < |el| ==> s[i] == el[i];
    assert s[..|Open|] == el[..|Open|];
    var t := s[|Open|..];
    assert forall i :: 0 <= i <= |cls| ==> t[i] == el[|Open| + i];
    assert s[|Open| + |cls|..][..|OpenEnd|] == el[|Open| + |cls|..c];
    assert s[c..e] == el[c..e];
    assert s[e..][..|Close|] == el[e..];
  }

  /** Completeness of the second alternative: a plain run ends exactly at the next `<`. */
  lemma {:induction false} PlainRunExact(s: string, n: nat)
    requires n <= |s|
    requires forall i :: 0 <= i < n ==> s[i] != '<'
    requires n < |s| ==> s[n] == '<'
    ensures PlainRun(s) == n
  {
    if n > 0 {
      PlainRunExact(s[1..], n - 1);
    }
  }

  // ---------------------------------------------------------------------
  // The markup the model assumes of the highlighter: a sequence of tokens,
  // each emitted as text escaped in the forms of the decoder's table,
  // highlighted ones wrapped in a span carrying their one class.
  // ---------------------------------------------------------------------

  datatype Token = Plain(text: string) | Styled(cls: string, text: string)

  function EmitToken(t: Token): string
  {
    match t
    case Plain(text) => Entities.Escape(text)
    case Styled(cls, text) => ElementText(cls, Entities.Escape(text))
  }

  function Emit(ts: seq<Token>): string
  {
    if ts == [] then [] else EmitToken(ts[0]) + Emit(ts[1..])
  }

  /** What the scanner should report for a token. */
  function MatchOf(t: Token): Match
  {
    match t
    case Plain(text) => Match(None, Entities.Escape(text))
    case Styled(cls, text) => Match(Some(cls), Entities.Escape(text))
  }

  function MatchesOf(ts: seq<Token>): (ms: seq<Match>)
    ensures |ms| == |ts|
    ensures forall i :: 0 <= i < |ts| ==> ms[i] == MatchOf(ts[i])
  {
    if ts == [] then [] else [MatchOf(ts[0])] + MatchesOf(ts[1..])
  }

  /**
   * Well-formed tokens: class names are `[\w-]+`, plain runs are
   * non-empty, and two plain runs are never adjacent (they would be one).
   */
  predicate WellFormed(ts: seq<Token>)
  {
    forall i :: 0 <= i < |ts| ==> TokenFits(ts, i)
  }

  predicate TokenFits(ts: seq<Token>, i: nat)
    requires i < |ts|
  {
    match ts[i]
    case Styled(cls, _) => IsClassName(cls)
    case Plain(text) => text != [] && (i + 1 < |ts| ==> ts[i + 1].Styled?)
  }

  /** The tokens the scanner can read in a mode: as written, no highlighted token spans a line break. */
  predicate Readable(ts: seq<Token>, mode: Mode)
  {
    forall i, j :: 0 <= i < |ts| && ts[i].Styled? && 0 <= j < |ts[i].text| ==> ContentChar(ts[i].text[j], mode)
  }

  /** Round trip: scanning emitted markup reports exactly the emitted tokens. */
  lemma {:induction false} ScanEmitted(ts: seq<Token>, mode: Mode)
    requires WellFormed(ts) && Readable(ts, mode)
    ensures Matches(Emit(ts), mode) == MatchesOf(ts)
  {
    if ts != [] {
      var rest := ts[1..];
      assert TokenFits(ts, 0);
      WellFormedTail(ts, mode);
      if ts[0].Styled? {
        forall j | 0 <= j < |ts[0].text|
          ensures ContentChar(ts[0].text[j], mode)
        {
        }
      }
      if ts[0].Plain? && rest != [] {
        assert rest[0] == ts[1];
        assert Emit(rest) == EmitToken(rest[0]) + Emit(rest[1..]);
        assert Emit(rest)[0] == Open[0];
      }
      ScanToken(ts[0], Emit(rest), mode);
      ScanEmitted(rest, mode);
    }
  }

  lemma WellFormedTail(ts: seq<Token>, mode: Mode)
    requires ts != [] && WellFormed(ts) && Readable(ts, mode)
    ensures WellFormed(ts[1..]) && Readable(ts[1..], mode)
  {
    var rest := ts[1..];
    forall i | 0 <= i < |rest|
      ensures TokenFits(rest, i)
    {
      assert TokenFits(ts, i + 1) && ts[i + 1] == rest[i];
      assert i + 1 < |rest| ==> ts[i + 2] == rest[i + 1];
    }
    forall i, j | 0 <= i < |rest| && rest[i].Styled? && 0 <= j < |rest[i].text|
      ensures ContentChar(rest[i].text[j], mode)
    {
      assert ts[i + 1] == rest[i];
    }
  }

  /** One token in front of the markup that follows it is scanned as that token. */
  lemma ScanToken(t: Token, next: string, mode: Mode)
    requires t.Plain? ==> t.text != [] && (next == [] || next[0] == '<')
    requires t.Styled? ==> IsClassName(t.cls) && forall j :: 0 <= j < |t.text| ==> ContentChar(t.text[j], mode)
    ensures Matches(EmitToken(t) + next, mode) == [MatchOf(t)] + Matches(next, mode)
  {
    var head := EmitToken(t);
    var s := head + next;
    var raw := Entities.Escape(t.text);
    assert forall i :: 0 <= i < |raw| ==> raw[i] != '<' by {
      assert forall i :: 0 <= i < |raw| ==> raw[i] in raw;
    }
    match t
    case Plain(text) => {
      assert head == raw && raw != [];
      PlainRunExact(s, |head|);
      assert s[..|head|] == head && s[|head|..] == next;
    }
    case Styled(cls, text) => {
      forall i | 0 <= i < |raw|
        ensures ContentChar(raw[i], mode)
      {
        assert raw[i] in raw;
      }
      assert StartsWith(s, ElementText(cls, raw)) by {
        assert s[..|head|] == head;
      }
      ElementFound(s, cls, raw, mode);
      assert s[0] == '<';
      assert s[|head|..] == next;
    }
  }

  // ---------------------------------------------------------------------
  // As written, the lazy content refuses line terminators, so an element
  // whose content spans a line break is not matched as an element at all.
  // ---------------------------------------------------------------------

  /** The lazy content stops at a character it may not hold before any `</span>`. */
  lemma {:induction false} CloseRefused(s: string, k: nat, p: nat, mode: Mode)
    requires k <= p < |s| && !ContentChar(s[p], mode) && NoCloseIn(s, k, p + 1)
    ensures CloseFrom(s, k, mode).None?
    decreases p - k
  {
    assert !StartsWith(s[k..], Close);
    if k < p {
      CloseRefused(s, k + 1, p, mode);
    }
  }

  /**
   * An element whose content holds a line terminator is read, as written,
   * as two plain runs: its text without the leading `<` up to the closing
   * tag, then the closing tag without its `<`. Both `<` are dropped.
   */
  lemma ScanMultiLineElement(cls: string, raw: string, p: nat)
    requires IsClassName(cls) && '<' !in raw
    requires p < |raw| && IsLineTerminator(raw[p])
    ensures Matches(ElementText(cls, raw), AsWritten)
         == [Match(None, Open[1..] + cls + OpenEnd + raw), Match(None, Close[1..])]
  {
    var s := ElementText(cls, raw);
    var head := Open[1..] + cls + OpenEnd + raw;
    ElementRefused(cls, raw, p);
    assert s[1..] == head + Close;
    OpenTailPlain(cls, raw);
    ScanClose();
  }

  /** As written, the element itself is refused. */
  lemma ElementRefused(cls: string, raw: string, p: nat)
    requires IsClassName(cls) && '<' !in raw
    requires p < |raw| && IsLineTerminator(raw[p])
    ensures ElementAt(ElementText(cls, raw), AsWritten).None?
  {
    var s := ElementText(cls, raw);
    var c := ContentStart(cls);
    ElementLayout(s, cls, raw);
    ClassRunExact(s[|Open|..], cls);
    assert NoCloseIn(s, c, c + p + 1) by {
      forall i | c <= i < c + p + 1 && i <= |s|
        ensures !StartsWith(s[i..], Close)
      {
        assert s[i..][0] == s[i] == raw[i - c];
        assert raw[i - c] in raw;
      }
    }
    CloseRefused(s, c, c + p, AsWritten);
  }

  /** With its `<` dropped, the element's text up to the closing tag is one plain run. */
  lemma OpenTailPlain(cls: string, raw: string)
    requires IsClassName(cls) && '<' !in raw
    ensures var head := Open[1..] + cls + OpenEnd + raw;
      Matches(head + Close, AsWritten) == [Match(None, head)] + Matches(Close, AsWritten)
  {
    var head := Open[1..] + cls + OpenEnd + raw;
    var t := head + Close;
    forall i | 0 <= i < |head|
      ensures t[i] != '<'
    {
      if i < |Open| - 1 {
        assert t[i] == Open[i + 1];
      } else if i < |Open| - 1 + |cls| {
        assert t[i] == cls[i - (|Open| - 1)];
        assert IsClassChar(cls[i - (|Open| - 1)]);
      } else if i < |Open| - 1 + |cls| + |OpenEnd| {
        assert t[i] == OpenEnd[i - (|Open| - 1 + |cls|)];
      } else {
        assert t[i] == raw[i - (|Open| - 1 + |cls| + |OpenEnd|)];
        assert raw[i - (|Open| - 1 + |cls| + |OpenEnd|)] in raw;
      }
    }
    PlainRunExact(t, |head|);
    assert t[..|head|] == head && t[|head|..] == Close;
  }

  /** A lone closing tag is read as its text without the `<`. */
  lemma ScanClose()
    ensures Matches(Close, AsWritten) == [Match(None, Close[1..])]
  {
    assert !StartsWith(Close, Open);
    var t := Close[1..];
    PlainRunExact(t, |t|);
    assert t[..|t|] == t && t[|t|..] == [];
  }
}
