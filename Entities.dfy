/**
 * The character-reference decoder applied to every piece of text taken from
 * the highlighter's markup (`decodeHTMLEntities` and its `entities` table).
 */
module Entities {
  import opened Wrappers
  import opened Text

  /** The six references the decoder replaces, in the order of its alternation. */
  const References: seq<(string, char)> :=
    [("&quot;", '"'), ("&amp;", '&'), ("&lt;", '<'), ("&gt;", '>'), ("&#39;", '\''), ("&apos;", '\'')]

  /** The first alternative, from index `k` on, that matches at the start of `s`. */
  function ReferenceFrom(s: string, k: nat): (r: Option<nat>)
    requires k <= |References|
    ensures r.Some? ==> k <= r.value < |References| && StartsWith(s, References[r.value].0)
    ensures r.None? ==> forall j :: k <= j < |References| ==> !StartsWith(s, References[j].0)
    decreases |References| - k
  {
    if k == |References| then None
    else if StartsWith(s, References[k].0) then Some(k)
    else ReferenceFrom(s, k + 1)
  }

  /** The reference the alternation matches at the start of `s`, if any. */
  function ReferenceAt(s: string): (r: Option<nat>)
    ensures r.Some? ==> r.value < |References| && StartsWith(s, References[r.value].0)
    ensures r.Some? ==> forall j :: 0 <= j < r.value ==> !StartsWith(s, References[j].0)
    ensures r.None? ==> forall j :: 0 <= j < |References| ==> !StartsWith(s, References[j].0)
  {
    var r := ReferenceFrom(s, 0);
    if r.Some? then
      assert forall j :: 0 <= j < r.value ==> !StartsWith(s, References[j].0) by {
        FirstReference(s, 0);
      }
      r
    else r
  }

  lemma {:induction false} FirstReference(s: string, k: nat)
    requires k <= |References|
    ensures ReferenceFrom(s, k).Some? ==>
              forall j :: k <= j < ReferenceFrom(s, k).value ==> !StartsWith(s, References[j].0)
    decreases |References| - k
  {
    if k < |References| && !StartsWith(s, References[k].0) {
      FirstReference(s, k + 1);
    }
  }

  /**
   * One left-to-right, non-overlapping pass of the global replace: at each
   * position the first matching reference is replaced by its character and
   * scanning resumes after it; any other character is copied.
   */
  function Decode(s: string): (r: string)
    ensures |r| <= |s|
    decreases |s|
  {
    if s == [] then []
    else match ReferenceAt(s)
      case Some(k) => [References[k].1] + Decode(s[|References[k].0|..])
      case None => [s[0]] + Decode(s[1..])
  }

  /** Escaping in the forms the decoder recognises: the decoder's inverse. */
  function EscapeChar(c: char): string
  {
    if c == '&' then "&amp;"
    else if c == '<' then "&lt;"
    else if c == '>' then "&gt;"
    else if c == '"' then "&quot;"
    else if c == '\'' then "&#39;"
    else [c]
  }

  function Escape(s: string): (r: string)
    ensures '<' !in r
    ensures |r| >= |s|
    ensures r == [] <==> s == []
    ensures forall c :: IsLineTerminator(c) ==> (c in r <==> c in s)
  {
    if s == [] then [] else EscapeChar(s[0]) + Escape(s[1..])
  }

  /** Each reference, followed by anything, decodes to its character and the pass resumes after it. */
  lemma DecodeReference(k: nat, rest: string)
    requires k < |References|
    ensures Decode(References[k].0 + rest) == [References[k].1] + Decode(rest)
  {
    var s := References[k].0 + rest;
    assert StartsWith(s, References[k].0);
    assert forall j :: 0 <= j < |References| && j != k ==> !StartsWith(s, References[j].0) by {
      forall j | 0 <= j < |References| && j != k
        ensures !StartsWith(s, References[j].0)
      {
        Distinct(k, j, rest);
      }
    }
    assert ReferenceAt(s) == Some(k);
    assert s[|References[k].0|..] == rest;
  }

  /** No reference is a prefix of another reference followed by any text. */
  lemma Distinct(k: nat, j: nat, rest: string)
    requires k < |References| && j < |References| && j != k
    ensures !StartsWith(References[k].0 + rest, References[j].0)
  {
    var s := References[k].0 + rest;
    // the two references disagree at their second or third character
    assert s[1] == References[k].0[1] && s[2] == References[k].0[2];
  }

  /** No reference starts at a character other than an ampersand. */
  lemma NoReferenceHere(s: string)
    requires s == [] || s[0] != '&'
    ensures ReferenceAt(s).None?
  {
    forall j | 0 <= j < |References|
      ensures !StartsWith(s, References[j].0)
    {
      assert References[j].0[0] == '&';
    }
  }

  /** Text in which no reference starts anywhere is returned unchanged. */
  lemma {:induction false} NoReferenceUnchanged(s: string)
    requires forall i :: 0 <= i < |s| ==> ReferenceAt(s[i..]).None?
    ensures Decode(s) == s
    decreases |s|
  {
    if s != [] {
      assert s[0..] == s;
      forall i | 0 <= i < |s[1..]|
        ensures ReferenceAt(s[1..][i..]).None?
      {
        assert s[1..][i..] == s[i + 1..];
      }
      NoReferenceUnchanged(s[1..]);
    }
  }

  /** In particular, text without an ampersand is returned unchanged. */
  lemma NoAmpersandUnchanged(s: string)
    requires '&' !in s
    ensures Decode(s) == s
  {
    forall i | 0 <= i < |s|
      ensures ReferenceAt(s[i..]).None?
    {
      NoReferenceHere(s[i..]);
    }
    NoReferenceUnchanged(s);
  }

  /** The decoder inverts the escaping of one character. */
  lemma DecodeEscapeChar(c: char, rest: string)
    ensures Decode(EscapeChar(c) + rest) == [c] + Decode(rest)
  {
    if c == '&' {
      DecodeReference(1, rest);
    } else if c == '<' {
      DecodeReference(2, rest);
    } else if c == '>' {
      DecodeReference(3, rest);
    } else if c == '"' {
      DecodeReference(0, rest);
    } else if c == '\'' {
      DecodeReference(4, rest);
    } else {
      var s := [c] + rest;
      NoReferenceHere(s);
      assert s[1..] == rest;
    }
  }

  /** Round trip: decoding escaped text gives the text back. */
  lemma {:induction false} DecodeEscape(s: string)
    ensures Decode(Escape(s)) == s
  {
    if s != [] {
      DecodeEscapeChar(s[0], Escape(s[1..]));
      DecodeEscape(s[1..]);
    }
  }

  /** The decoder's documented examples: the empty text and an escaped tag. */
  lemma DecodeExamples()
    ensures Decode("") == ""
    ensures Decode("&lt;" + "div" + "&gt;") == "<div>"
  {
    DecodeEnclosed("div");
  }

  /** Text between `&lt;` and `&gt;` comes out between `<` and `>`. */
  lemma DecodeEnclosed(m: string)
    requires '&' !in m
    ensures Decode(References[2].0 + m + References[3].0) == "<" + m + ">"
  {
    var lt, gt := References[2].0, References[3].0;
    assert gt == gt + "";
    DecodeReference(3, "");
    assert Decode(gt) == ">";
    DecodeIgnoresPlainPrefix(m, gt);
    assert Decode(m + gt) == m + ">";
    DecodeReference(2, m + gt);
    assert lt + m + gt == lt + (m + gt);
  }

  /** The pass does not rescan its own output: `&amp;lt;` decodes to `&lt;`, not `<`. */
  lemma DecodeSinglePass()
    ensures Decode("&amp;lt;") == "&lt;"
  {
    assert "&amp;lt;" == References[1].0 + "lt;";
    DecodeReference(1, "lt;");
    NoAmpersandUnchanged("lt;");
  }

  /** Text without an ampersand in front of the rest passes through unchanged. */
  lemma {:induction false} DecodeIgnoresPlainPrefix(p: string, rest: string)
    requires '&' !in p
    ensures Decode(p + rest) == p + Decode(rest)
    decreases |p|
  {
    if p != [] {
      var s := p + rest;
      assert s[0] == p[0] && s[1..] == p[1..] + rest;
      DecodeCopies(s);
      DecodeIgnoresPlainPrefix(p[1..], rest);
      assert [p[0]] + p[1..] == p;
    } else {
      assert p + rest == rest;
    }
  }

  /** A character other than an ampersand is copied, and the pass goes on after it. */
  lemma DecodeCopies(s: string)
    requires s != [] && s[0] != '&'
    ensures Decode(s) == [s[0]] + Decode(s[1..])
  {
    NoReferenceHere(s);
  }

  /**
   * A reference outside the table, with no further `&` after it, is kept as
   * it is: the pass copies its characters.
   */
  lemma UnlistedReferenceKept(s: string)
    requires s != [] && ReferenceAt(s).None? && '&' !in s[1..]
    ensures Decode(s) == s
  {
    NoAmpersandUnchanged(s[1..]);
    assert [s[0]] + s[1..] == s;
  }

  /**
   * The table holds one spelling for each character: the hexadecimal and
   * other decimal references for the same quotes are not decoded.
   */
  lemma OtherFormsKept()
    ensures Decode("&#x27;") == "&#x27;"
    ensures Decode("&#34;") == "&#34;"
    ensures Decode("&#x22;") == "&#x22;"
    ensures Decode("&#390;") == "&#390;"
  {
    NotKeyAt("&#x27;", "&#39;", 2);
    NumericKept("&#x27;");
    NotKeyAt("&#34;", "&#39;", 3);
    NumericKept("&#34;");
    NotKeyAt("&#x22;", "&#39;", 2);
    NumericKept("&#x22;");
    NotKeyAt("&#390;", "&#39;", 4);
    NumericKept("&#390;");
  }

  lemma NotKeyAt(s: string, key: string, i: nat)
    requires i < |s| && i < |key| && s[i] != key[i]
    ensures !StartsWith(s, key)
  {
  }

  /** No reference of the table starts a numeric reference other than `&#39;`. */
  lemma NumericUnlisted(s: string)
    requires |s| >= 2 && s[0] == '&' && s[1] == '#'
    requires !StartsWith(s, "&#39;")
    ensures ReferenceAt(s).None?
  {
    // Only `&#39;` starts with `&#`; the others differ at their second character.
    NotKeyAt(s, References[0].0, 1);
    NotKeyAt(s, References[1].0, 1);
    NotKeyAt(s, References[2].0, 1);
    NotKeyAt(s, References[3].0, 1);
    assert References[4].0 == "&#39;";
    NotKeyAt(s, References[5].0, 1);
  }

  /** A numeric reference other than `&#39;`, with no further `&`, is kept as it is. */
  lemma NumericKept(s: string)
    requires |s| >= 2 && s[0] == '&' && s[1] == '#'
    requires !StartsWith(s, "&#39;")
    requires '&' !in s[1..]
    ensures Decode(s) == s
  {
    NumericUnlisted(s);
    UnlistedReferenceKept(s);
  }
}
