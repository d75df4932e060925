/** Worked examples of the compiler on concrete inputs. */
module CompilerExamples {
  import opened Text
  import opened Pairs
  import opened Compiler

  /** A single pair annotates its word; the second segment is the plain source. */
  lemma SingleWord()
    ensures Compile("東京", [Tokyo]) == Wrap("<ruby>東京<rt>とうきょう</rt></ruby>", "東京")
  {
    SinglePair("東京", Tokyo);
    TokyoTag();
  }

  lemma TokyoTag()
    ensures RubyTag(Tokyo) == "<ruby>東京<rt>とうきょう</rt></ruby>"
  {
  }

  /** A source that is exactly the word of the only pair becomes that pair's fragment. */
  lemma SinglePair(source: string, p: RubyPair)
    requires source == p.tango && IsValid(p)
    requires '$' !in p.tango && '$' !in p.reading
    ensures Compile(source, [p]) == Wrap(RubyTag(p), source)
  {
    assert ValidPairs([p]) == [p] by {
      assert [p][1..] == [];
    }
    assert SortByLength([p]) == [p] by {
      assert [p][1..] == [];
    }
    assert ApplyAll(source, [p]) == Annotate(source, p) by {
      assert [p][..0] == [];
    }
    AnnotateWhole(source, p);
  }

  const Tokyo: RubyPair := RubyPair("東京", "とうきょう", false)
  const Kyo: RubyPair := RubyPair("京", "きょう", false)

  lemma TwoPairsOrder()
    ensures ApplicationOrder([Kyo, Tokyo]) == [Tokyo, Kyo]
  {
    TwoPairsLengths();
    ValidPairsOfValid([Kyo, Tokyo]);
    SortTwo(Kyo, Tokyo);
  }

  /** With 東京 already first in the store, the order stays as it is. */
  lemma TwoPairsOrderKept()
    ensures ApplicationOrder([Tokyo, Kyo]) == [Tokyo, Kyo]
  {
    TwoPairsLengths();
    ValidPairsOfValid([Tokyo, Kyo]);
    SortTwo(Tokyo, Kyo);
  }

  lemma TwoPairsLengths()
    ensures IsValid(Kyo) && IsValid(Tokyo)
    ensures Len(Kyo) == 1 && Len(Tokyo) == 2
  {
    assert Kyo.tango[0] as int < 0x10000;
    assert forall i | 0 <= i < |Tokyo.tango| :: Tokyo.tango[i] as int < 0x10000;
  }

  /** Two pairs come out longer word first, in store order when equally long. */
  lemma SortTwo(p: RubyPair, q: RubyPair)
    ensures SortByLength([p, q]) == if Len(q) <= Len(p) then [p, q] else [q, p]
  {
    assert [p, q][1..] == [q];
    assert [q][1..] == [];
    assert SortByLength([q]) == [q];
    if Len(p) < Len(q) {
      assert InsertByLength(p, [q]) == [q] + InsertByLength(p, []);
    }
  }

  lemma AnnotateTokyo()
    ensures Annotate("東京タワー", Tokyo) == RubyTag(Tokyo) + "タワー"
  {
    var t0 := "東京タワー";
    var pat, rest := "東京", "タワー";
    var tag := RubyTag(Tokyo);
    assert ReplaceFrom(t0, pat, tag, 2) == rest by {
      assert t0[2..5] == rest;
      assert ReplaceFrom(t0, pat, tag, 5) == [];
      ReplaceFromSkip(t0, pat, tag, 2, 5);
    }
    assert Expand(tag, pat, [], rest) == tag by {
      ExpandLiteral(tag, pat, [], rest);
    }
    assert pat <= t0[0..];
    assert t0[..0] == [] && t0[2..] == rest;
  }

  const Before: string := RubyOpen + "東"
  const After: string := "<rt>" + "とうきょう" + "</rt></ruby>" + "タワー"

  lemma AnnotateKyo()
    ensures Annotate(Before + "京" + After, Kyo) == Before + RubyTag(Kyo) + After
  {
    var t1 := Before + "京" + After;
    KyoMatch();
    ConcatAssoc(Before, "京", After);
    assert |Before| == 7;
    assert t1[0..7] == Before;
    KyoNotBefore();
    ReplaceFromSkip(t1, "京", RubyTag(Kyo), 0, 7);
    ConcatAssoc(Before, RubyTag(Kyo), After);
  }

  lemma KyoNotBefore()
    ensures '京' !in Before
  {
    assert '京' !in RubyOpen;
    assert '京' !in "東";
  }

  /** The scan for 京 in the 東京 fragment: the one 京 becomes its fragment. */
  lemma KyoMatch()
    ensures var t1 := Before + "京" + After;
      |t1| >= 8 && ReplaceFrom(t1, "京", RubyTag(Kyo), 7) == RubyTag(Kyo) + After
  {
    var t1 := Before + "京" + After;
    var tag := RubyTag(Kyo);
    assert |Before| == 7;
    KyoRest();
    ExpandLiteral(tag, "京", Before, After);
    assert "京" <= t1[7..];
    assert t1[..7] == Before && t1[8..] == After;
  }

  /** The scan for 京 after the 京 of the 東京 fragment copies the rest. */
  lemma KyoRest()
    ensures var t1 := Before + "京" + After;
      |t1| >= 8 && ReplaceFrom(t1, "京", RubyTag(Kyo), 8) == After
  {
    var t1 := Before + "京" + After;
    var tag := RubyTag(Kyo);
    var head := Before + "京";
    assert |head| == 8 && t1 == head + After;
    assert t1[8..] == After;
    KyoNotAfter();
    SkipToEnd(t1, "京", tag, 8);
  }

  /** A tail without the word's first character is copied to the end. */
  lemma SkipToEnd(text: string, pat: string, template: string, i: nat)
    requires pat != [] && i <= |text| && pat[0] !in text[i..]
    ensures ReplaceFrom(text, pat, template, i) == text[i..]
  {
    assert text[i..|text|] == text[i..];
    assert ReplaceFrom(text, pat, template, |text|) == [];
    ReplaceFromSkip(text, pat, template, i, |text|);
  }

  lemma KyoNotAfter()
    ensures '京' !in After
  {
    assert '京' !in "<rt>";
    assert '京' !in "とうきょう";
    assert '京' !in "</rt></ruby>";
    assert '京' !in "タワー";
  }

  lemma ApplyTwo(text: string, p: RubyPair, q: RubyPair)
    requires p.tango != [] && q.tango != []
    ensures ApplyAll(text, [p, q]) == Annotate(Annotate(text, p), q)
  {
    assert [p, q][..1] == [p];
    assert [p][..0] == [];
    assert ApplyAll(text, [p]) == Annotate(text, p);
  }

  lemma TokyoFragment()
    ensures RubyTag(Tokyo) + "タワー" == Before + "京" + After
  {
    assert "東京" == "東" + "京";
  }

  lemma NestedFragment()
    ensures Before + RubyTag(Kyo) + After
         == "<ruby>東" + "<ruby>京<rt>きょう</rt></ruby>" + "<rt>とうきょう</rt></ruby>タワー"
  {
    BeforeText();
    AfterText();
    KyoTag();
  }

  lemma BeforeText()
    ensures Before == "<ruby>東"
  {
  }

  lemma AfterText()
    ensures After == "<rt>とうきょう</rt></ruby>タワー"
  {
  }

  lemma KyoTag()
    ensures RubyTag(Kyo) == "<ruby>京<rt>きょう</rt></ruby>"
  {
  }

  /**
    The longer word goes first, yet the shorter word is still found inside
    the fragment the longer one produced: 東京 then 京 gives nested ruby,
    whatever order the two pairs have in the store.
  */
  lemma ShorterWordInsideLongerFragment()
    ensures Compile("東京タワー", [Kyo, Tokyo])
         == Wrap("<ruby>東" + "<ruby>京<rt>きょう</rt></ruby>" + "<rt>とうきょう</rt></ruby>タワー", "東京タワー")
    ensures Compile("東京タワー", [Tokyo, Kyo]) == Compile("東京タワー", [Kyo, Tokyo])
  {
    var source := "東京タワー";
    TwoPairsOrder();
    TwoPairsOrderKept();
    ApplyTwo(source, Tokyo, Kyo);
    AnnotateTokyo();
    TokyoFragment();
    AnnotateKyo();
    NestedFragment();
  }

  const Yama: RubyPair := RubyPair("山", "やま", false)

  lemma AnnotateWhole(source: string, p: RubyPair)
    requires source == p.tango != []
    requires '$' !in p.tango && '$' !in p.reading
    ensures Annotate(source, p) == RubyTag(p)
  {
    var n := |source|;
    assert ReplaceFrom(source, p.tango, RubyTag(p), n) == [];
    ExpandLiteral(RubyTag(p), p.tango, [], []);
    assert source[..0] == [] && source[n..] == [];
    assert p.tango <= source[0..];
  }

  /** A pair with an empty word is skipped; the other pair still annotates its word. */
  lemma EmptyWordSkipped()
    ensures Compile("山", [RubyPair("", "あ", false), Yama])
         == Wrap("<ruby>山<rt>やま</rt></ruby>", "山")
  {
    var source := "山";
    var bad := RubyPair("", "あ", false);
    InvalidPairIsIgnored(source, [Yama], 0, bad);
    assert [Yama][..0] + [bad] + [Yama][0..] == [bad, Yama] by {
      assert [Yama][..0] == [] && [Yama][0..] == [Yama];
    }
    SinglePair(source, Yama);
    YamaTag();
  }

  lemma YamaTag()
    ensures RubyTag(Yama) == "<ruby>山<rt>やま</rt></ruby>"
  {
  }

  /** The whole text is one occurrence of the word: it becomes the expanded fragment. */
  lemma AnnotateWholeExpanded(source: string, p: RubyPair)
    requires source == p.tango != []
    ensures Annotate(source, p) == Expand(RubyTag(p), source, [], [])
  {
    var n := |source|;
    assert ReplaceFrom(source, p.tango, RubyTag(p), n) == [];
    assert source[..0] == [] && source[n..] == [];
    assert p.tango <= source[0..];
  }

  /** `$&` followed by literal text expands to the matched word and that text. */
  lemma ExpandMatchedWord(word: string, tail: string)
    requires '$' !in tail
    ensures Expand("$&" + tail, word, [], []) == word + tail
  {
    var t := "$&" + tail;
    assert t[0] == '$' && t[1] == '&' && t[2..] == tail;
    ExpandLiteral(tail, word, [], []);
  }

  /**
    `$&` in a reading is a replacement pattern of `String.prototype.replace`:
    it stands for the matched word, not for the two characters.
  */
  lemma DollarAmpersandInReading(word: string)
    requires word != [] && '$' !in word
    ensures Annotate(word, RubyPair(word, "$&", false)) == RubyOpen + word + "<rt>" + word + "</rt></ruby>"
  {
    var p := RubyPair(word, "$&", false);
    AnnotateWholeExpanded(word, p);
    var head, tail := RubyOpen + word + "<rt>", "</rt></ruby>";
    ConcatAssoc(head, "$&", tail);
    assert RubyTag(p) == head + ("$&" + tail);
    assert '$' !in RubyOpen && '$' !in "<rt>";
    assert '$' !in head && head[|head| - 1] == '>';
    ExpandLiteral(head, word, [], []);
    ExpandAppend(head, "$&" + tail, word, [], []);
    ExpandMatchedWord(word, tail);
    ConcatAssoc(head, word, tail);
  }
}
