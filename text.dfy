/**
  Character classes and string utilities shared by the annotation engine.

  Strings are sequences of Unicode scalar values (what `for...of` walks over on well-formed text).
  JavaScript's `.length` counts UTF-16 code units instead; `Utf16Length` gives
  that count, and it agrees with `|s|` on text from the Basic Multilingual Plane.
*/
module Text {

  /** Concatenation is associative; a lemma call keeps the solver from searching for it. */
  lemma ConcatAssoc<T>(a: seq<T>, b: seq<T>, c: seq<T>)
    ensures a + (b + c) == (a + b) + c
  {
  }

  /** The closing tag of every span the tool writes. */
  const SpanClose: string := "</span>"

  /** U+4E00..U+9FAF, the range `colorizeText` treats as a kanji. */
  predicate IsIdeograph(c: char) { 0x4E00 <= c as int <= 0x9FAF }

  /** U+3040..U+309F. */
  predicate IsHiragana(c: char) { 0x3040 <= c as int <= 0x309F }

  /** U+30A0..U+30FF. */
  predicate IsKatakana(c: char) { 0x30A0 <= c as int <= 0x30FF }

  /** The character class of a word in a `word:reading` response line. */
  predicate IsWordChar(c: char) { IsIdeograph(c) || IsHiragana(c) || IsKatakana(c) }

  /** Every character of `s` is in the class `inClass`. */
  predicate AllIn(s: string, inClass: char -> bool) { forall i | 0 <= i < |s| :: inClass(s[i]) }

  /** The number of UTF-16 code units that encode `s` (JavaScript's `s.length`). */
  function Utf16Length(s: string): (n: nat)
    ensures |s| <= n <= 2 * |s|
    ensures n == |s| <==> forall i | 0 <= i < |s| :: s[i] as int < 0x10000
  {
    if s == [] then 0
    else (if s[0] as int < 0x10000 then 1 else 2) + Utf16Length(s[1..])
  }

  /** `pat` occurs in `s` starting at some position. */
  predicate Occurs(s: string, pat: string) { exists i | 0 <= i <= |s| :: pat <= s[i..] }

  /**
    `s.split(sep)` for a non-empty separator: the pieces between the
    non-overlapping occurrences of `sep`, found from left to right.
  */
  function SplitOn(s: string, sep: string): (pieces: seq<string>)
    requires sep != []
    ensures |pieces| >= 1
    ensures pieces[0] <= s
    decreases |s|
  {
    if s == [] then [[]]
    else if sep <= s then [[]] + SplitOn(s[|sep|..], sep)
    else
      var rest := SplitOn(s[1..], sep);
      [[s[0]] + rest[0]] + rest[1..]
  }

  /** `pieces.join(sep)`. */
  function Join(pieces: seq<string>, sep: string): string
  {
    if pieces == [] then []
    else if |pieces| == 1 then pieces[0]
    else pieces[0] + sep + Join(pieces[1..], sep)
  }

  lemma JoinPrepend(c: char, pieces: seq<string>, sep: string)
    requires pieces != []
    ensures Join([[c] + pieces[0]] + pieces[1..], sep) == [c] + Join(pieces, sep)
  {
    var ps := [[c] + pieces[0]] + pieces[1..];
    assert ps[1..] == pieces[1..];
  }

  lemma JoinEmptyFirst(pieces: seq<string>, sep: string)
    requires pieces != []
    ensures Join([[]] + pieces, sep) == sep + Join(pieces, sep)
  {
    assert ([[]] + pieces)[1..] == pieces;
  }

  /** Joining the pieces of a split with the same separator gives back the text. */
  lemma {:induction false} JoinSplit(s: string, sep: string)
    requires sep != []
    ensures Join(SplitOn(s, sep), sep) == s
    decreases |s|
  {
    if s == [] {
    } else if sep <= s {
      var tail := s[|sep|..];
      var rest := SplitOn(tail, sep);
      JoinSplit(tail, sep);
      calc {
        Join(SplitOn(s, sep), sep);
        Join([[]] + rest, sep);
        { JoinEmptyFirst(rest, sep); }
        sep + Join(rest, sep);
        sep + tail;
        { assert s == sep + tail; }
        s;
      }
    } else {
      var tail := s[1..];
      var rest := SplitOn(tail, sep);
      JoinSplit(tail, sep);
      calc {
        Join(SplitOn(s, sep), sep);
        Join([[s[0]] + rest[0]] + rest[1..], sep);
        { JoinPrepend(s[0], rest, sep); }
        [s[0]] + Join(rest, sep);
        [s[0]] + tail;
        { assert s == [s[0]] + tail; }
        s;
      }
    }
  }

  /** No piece of a split contains the separator. */
  lemma {:induction false} SplitPiecesAreFree(s: string, sep: string)
    requires sep != []
    ensures forall k | 0 <= k < |SplitOn(s, sep)| :: !Occurs(SplitOn(s, sep)[k], sep)
    decreases |s|
  {
    var pieces := SplitOn(s, sep);
    if s == [] {
      assert pieces == [[]];
      assert !Occurs(pieces[0], sep) by {
        forall i | 0 <= i <= |pieces[0]| ensures !(sep <= pieces[0][i..]) {
        }
      }
    } else if sep <= s {
      var rest := SplitOn(s[|sep|..], sep);
      SplitPiecesAreFree(s[|sep|..], sep);
      assert pieces == [[]] + rest;
      forall k | 0 <= k < |pieces| ensures !Occurs(pieces[k], sep) {
        if k == 0 {
          forall i | 0 <= i <= |pieces[0]| ensures !(sep <= pieces[0][i..]) {
          }
        } else {
          assert pieces[k] == rest[k - 1];
        }
      }
    } else {
      var rest := SplitOn(s[1..], sep);
      SplitPiecesAreFree(s[1..], sep);
      var first := [s[0]] + rest[0];
      assert pieces == [first] + rest[1..];
      forall k | 0 <= k < |pieces| ensures !Occurs(pieces[k], sep) {
        if k == 0 {
          forall i | 0 <= i <= |first| ensures !(sep <= first[i..]) {
            if i != 0 {
              assert first[i..] == rest[0][i - 1..];
              assert !Occurs(rest[0], sep);
            }
          }
        } else {
          assert pieces[k] == rest[k];
        }
      }
    }
  }

  /** A text without the separator character is a single piece. */
  lemma {:induction false} SplitOnFree(a: string, c: char)
    requires c !in a
    ensures SplitOn(a, [c]) == [a]
    decreases |a|
  {
    if a != [] {
      assert a[0] in a;
      assert c !in a[1..];
      SplitOnFree(a[1..], c);
      assert [a[0]] + a[1..] == a;
    }
  }

  /** The first piece ends at the first separator character. */
  lemma {:induction false} SplitOnFirst(a: string, rest: string, c: char)
    requires c !in a
    ensures SplitOn(a + [c] + rest, [c]) == [a] + SplitOn(rest, [c])
    decreases |a|
  {
    var s := a + [c] + rest;
    if a == [] {
      assert [c] <= s && s[1..] == rest;
    } else {
      assert s[0] == a[0] && !([c] <= s);
      assert s[1..] == a[1..] + [c] + rest;
      assert c !in a[1..];
      SplitOnFirst(a[1..], rest, c);
      assert [a[0]] + a[1..] == a;
    }
  }

  /** Splitting a join on a one-character separator that no piece contains gives back the pieces. */
  lemma {:induction false} SplitJoin(pieces: seq<string>, c: char)
    requires pieces != []
    requires forall k | 0 <= k < |pieces| :: c !in pieces[k]
    ensures SplitOn(Join(pieces, [c]), [c]) == pieces
  {
    if |pieces| == 1 {
      SplitOnFree(pieces[0], c);
    } else {
      var rest := Join(pieces[1..], [c]);
      SplitJoin(pieces[1..], c);
      SplitOnFirst(pieces[0], rest, c);
      assert [pieces[0]] + pieces[1..] == pieces;
    }
  }
}
