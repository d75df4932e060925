/**
  The kanji highlighter behind `colorizeText`: every ideograph of the source
  text is wrapped in its own red span, every other character is copied as it is.
  The output is for display only and is never compiled.
*/
module Highlighter {
  import opened Text

  /** 山 is a kanji; the hiragana ま and the Latin A are not. */
  lemma IdeographExamples()
    ensures IsIdeograph('山') && !IsIdeograph('ま') && !IsIdeograph('A')
  {
  }

  const SpanOpen: string := "<span style=\"color: red;\">"

  /** What one character of the source becomes. */
  function Chunk(c: char): string
  {
    if IsIdeograph(c) then SpanOpen + [c] + SpanClose else [c]
  }

  function CountIdeographs(text: string): nat
  {
    if text == [] then 0 else (if IsIdeograph(text[0]) then 1 else 0) + CountIdeographs(text[1..])
  }

  /** The markup that `colorizeText` accumulates for `text`. */
  function Highlight(text: string): (marked: string)
    ensures |marked| == |text| + 33 * CountIdeographs(text)
  {
    if text == [] then [] else Chunk(text[0]) + Highlight(text[1..])
  }

  /** `m` starts with one highlighted ideograph: the open tag, a kanji and the close tag. */
  predicate StartsWithMarked(m: string)
  {
    |m| >= 34 && m[..26] == SpanOpen && IsIdeograph(m[26]) && m[27..34] == SpanClose
  }

  /**
    Removes the highlight spans, scanning from the left: a span around a
    single ideograph is replaced by that ideograph, anything else is copied.
  */
  function Unhighlight(m: string): string
    decreases |m|
  {
    if m == [] then []
    else if StartsWithMarked(m) then [m[26]] + Unhighlight(m[34..])
    else [m[0]] + Unhighlight(m[1..])
  }

  lemma {:induction false} HighlightAppend(a: string, b: string)
    ensures Highlight(a + b) == Highlight(a) + Highlight(b)
  {
    if a == [] {
      assert a + b == b;
    } else {
      var ab := a + b;
      assert ab[0] == a[0] && ab[1..] == a[1..] + b;
      calc {
        Highlight(ab);
        Chunk(a[0]) + Highlight(a[1..] + b);
        { HighlightAppend(a[1..], b); }
        Chunk(a[0]) + (Highlight(a[1..]) + Highlight(b));
        Highlight(a) + Highlight(b);
      }
    }
  }

  /** No ideograph can stand among the first 26 characters of any highlighted text. */
  lemma {:induction false} NoIdeographInOpening(text: string, k: nat)
    requires k < 26 && k < |Highlight(text)|
    ensures !IsIdeograph(Highlight(text)[k])
  {
    assert text != [];
    var rest := Highlight(text[1..]);
    if IsIdeograph(text[0]) {
      assert Highlight(text)[k] == SpanOpen[k];
    } else if k > 0 {
      assert Highlight(text)[k] == rest[k - 1];
      NoIdeographInOpening(text[1..], k - 1);
    }
  }

  /**
    Deleting the wrappers recovers the source exactly: the highlighter keeps
    every character and their order, whatever the source contains (even text
    that already looks like highlight markup).
  */
  lemma {:induction false} UnhighlightHighlight(text: string)
    ensures Unhighlight(Highlight(text)) == text
  {
    if text != [] {
      var m := Highlight(text);
      var rest := Highlight(text[1..]);
      UnhighlightHighlight(text[1..]);
      if IsIdeograph(text[0]) {
        assert m == SpanOpen + [text[0]] + SpanClose + rest;
        assert StartsWithMarked(m);
        assert m[34..] == rest;
      } else {
        assert m == [text[0]] + rest;
        if |m| >= 34 {
          NoIdeographInOpening(text[1..], 25);
          assert m[26] == rest[25];
        }
        assert !StartsWithMarked(m);
        assert m[1..] == rest;
      }
    }
  }

  lemma HighlightOne(c: char)
    ensures Highlight([c]) == Chunk(c)
  {
    assert [c][1..] == [];
    assert Chunk(c) + [] == Chunk(c);
  }

  /** `colorizeText`: walks the source character by character and accumulates the markup. */
  method Colorize(source: string) returns (colored: string)
    ensures colored == Highlight(source)
    ensures Unhighlight(colored) == source
  {
    colored := "";
    var i := 0;
    while i < |source|
      invariant 0 <= i <= |source|
      invariant colored == Highlight(source[..i])
    {
      var c := source[i];
      HighlightAppend(source[..i], [c]);
      HighlightOne(c);
      assert source[..i + 1] == source[..i] + [c];
      if IsIdeograph(c) {
        colored := colored + (SpanOpen + [c] + SpanClose);
      } else {
        colored := colored + [c];
      }
      i := i + 1;
    }
    assert source[..i] == source;
    UnhighlightHighlight(source);
  }
}
