/**
  The annotation compiler behind `processText`: drop the incomplete pairs,
  order the rest by descending word length (stably), replace every literal
  occurrence of each word in the progressively rewritten text by a ruby
  fragment, and wrap the result next to the untouched source.
*/
module Compiler {
  import opened Text
  import opened Pairs

  // ---------------------------------------------------------------------
  // Step 1: filtering

  /** `rubyPairs.filter(pair => pair.tango && pair.reading)`. */
  function ValidPairs(pairs: seq<RubyPair>): (valid: seq<RubyPair>)
    ensures |valid| <= |pairs|
  {
    if pairs == [] then []
    else if IsValid(pairs[0]) then [pairs[0]] + ValidPairs(pairs[1..])
    else ValidPairs(pairs[1..])
  }

  /** The filter keeps every valid pair as often as the store holds it, and nothing else. */
  lemma {:induction false} ValidPairsCount(pairs: seq<RubyPair>, p: RubyPair)
    ensures multiset(ValidPairs(pairs))[p] == if IsValid(p) then multiset(pairs)[p] else 0
  {
    if pairs != [] {
      ValidPairsCount(pairs[1..], p);
      assert pairs == [pairs[0]] + pairs[1..];
    }
  }

  lemma AllValid(pairs: seq<RubyPair>)
    ensures forall p | p in ValidPairs(pairs) :: IsValid(p)
  {
    forall p | p in ValidPairs(pairs) ensures IsValid(p) {
      ValidPairsCount(pairs, p);
    }
  }

  /** A store of complete pairs passes the filter unchanged. */
  lemma {:induction false} ValidPairsOfValid(pairs: seq<RubyPair>)
    requires forall p | p in pairs :: IsValid(p)
    ensures ValidPairs(pairs) == pairs
  {
    if pairs != [] {
      assert forall p | p in pairs[1..] :: p in pairs;
      ValidPairsOfValid(pairs[1..]);
    }
  }

  lemma {:induction false} ValidPairsAppend(a: seq<RubyPair>, b: seq<RubyPair>)
    ensures ValidPairs(a + b) == ValidPairs(a) + ValidPairs(b)
  {
    if a == [] {
      assert a + b == b;
    } else {
      var ab := a + b;
      assert ab[0] == a[0] && ab[1..] == a[1..] + b;
      ValidPairsAppend(a[1..], b);
      if IsValid(a[0]) {
        calc {
          ValidPairs(ab);
          [a[0]] + ValidPairs(a[1..] + b);
          [a[0]] + (ValidPairs(a[1..]) + ValidPairs(b));
          ([a[0]] + ValidPairs(a[1..])) + ValidPairs(b);
        }
      }
    }
  }

  // ---------------------------------------------------------------------
  // Step 2: stable ordering by descending `tango.length`

  /** The sort key: `tango.length`, counted in UTF-16 code units. */
  function Len(p: RubyPair): nat { Utf16Length(p.tango) }

  predicate SortedByLengthDesc(s: seq<RubyPair>)
  {
    forall i, j | 0 <= i < j < |s| :: Len(s[i]) >= Len(s[j])
  }

  /** The elements of `s` whose key is `n`, in their order in `s`. */
  function OfLength(s: seq<RubyPair>, n: nat): seq<RubyPair>
  {
    if s == [] then [] else (if Len(s[0]) == n then [s[0]] else []) + OfLength(s[1..], n)
  }

  /** Puts `p` in front of the first element that is not longer than it. */
  function InsertByLength(p: RubyPair, s: seq<RubyPair>): (r: seq<RubyPair>)
    ensures multiset(r) == multiset(s) + multiset{p}
  {
    if s == [] || Len(s[0]) <= Len(p) then [p] + s
    else
      assert s == [s[0]] + s[1..];
      [s[0]] + InsertByLength(p, s[1..])
  }

  lemma {:induction false} InsertKeepsSorted(p: RubyPair, s: seq<RubyPair>)
    requires SortedByLengthDesc(s)
    ensures SortedByLengthDesc(InsertByLength(p, s))
  {
    if s == [] || Len(s[0]) <= Len(p) {
      assert forall k | 0 < k < |s| :: Len(s[0]) >= Len(s[k]);
      SortedCons(p, s);
    } else {
      InsertKeepsSorted(p, s[1..]);
      InsertBounded(p, s[1..], Len(s[0]));
      SortedCons(s[0], InsertByLength(p, s[1..]));
    }
  }

  /** A word at least as long as every word of a sorted list can go in front of it. */
  lemma SortedCons(p: RubyPair, s: seq<RubyPair>)
    requires SortedByLengthDesc(s)
    requires forall k | 0 <= k < |s| :: Len(s[k]) <= Len(p)
    ensures SortedByLengthDesc([p] + s)
  {
    var r := [p] + s;
    forall i, j | 0 <= i < j < |r| ensures Len(r[i]) >= Len(r[j]) {
      assert r[j] == s[j - 1];
      if i > 0 {
        assert r[i] == s[i - 1];
      }
    }
  }

  /** Inserting into a list of words no longer than `bound` a word no longer than `bound` keeps that bound. */
  lemma {:induction false} InsertBounded(p: RubyPair, s: seq<RubyPair>, bound: nat)
    requires Len(p) <= bound
    requires forall k | 0 <= k < |s| :: Len(s[k]) <= bound
    ensures forall k | 0 <= k < |InsertByLength(p, s)| :: Len(InsertByLength(p, s)[k]) <= bound
  {
    if !(s == [] || Len(s[0]) <= Len(p)) {
      var rest := InsertByLength(p, s[1..]);
      InsertBounded(p, s[1..], bound);
      assert forall k | 1 <= k < |[s[0]] + rest| :: ([s[0]] + rest)[k] == rest[k - 1];
    }
  }

  /**
    `[...validPairs].sort((a, b) => b.tango.length - a.tango.length)`:
    `Array.prototype.sort` is stable, so this is the stable sort by descending
    length, written as an insertion sort.
  */
  function SortByLength(s: seq<RubyPair>): (r: seq<RubyPair>)
    ensures multiset(r) == multiset(s)
  {
    if s == [] then []
    else
      assert s == [s[0]] + s[1..];
      InsertByLength(s[0], SortByLength(s[1..]))
  }

  /** The sort puts longer words first. */
  lemma {:induction false} SortByLengthIsSorted(s: seq<RubyPair>)
    ensures SortedByLengthDesc(SortByLength(s))
  {
    if s != [] {
      SortByLengthIsSorted(s[1..]);
      InsertKeepsSorted(s[0], SortByLength(s[1..]));
    }
  }

  lemma {:induction false} InsertOfLength(p: RubyPair, s: seq<RubyPair>, n: nat)
    requires SortedByLengthDesc(s)
    ensures OfLength(InsertByLength(p, s), n)
         == if Len(p) == n then [p] + OfLength(s, n) else OfLength(s, n)
  {
    if s == [] || Len(s[0]) <= Len(p) {
      assert ([p] + s)[1..] == s;
      OfLengthCons([p] + s, n);
    } else {
      var rest := InsertByLength(p, s[1..]);
      InsertOfLength(p, s[1..], n);
      assert ([s[0]] + rest)[1..] == rest;
      OfLengthCons([s[0]] + rest, n);
      OfLengthCons(s, n);
    }
  }

  lemma OfLengthCons(s: seq<RubyPair>, n: nat)
    requires s != []
    ensures OfLength(s, n) == if Len(s[0]) == n then [s[0]] + OfLength(s[1..], n) else OfLength(s[1..], n)
  {
    assert [] + OfLength(s[1..], n) == OfLength(s[1..], n);
  }

  /**
    Stability: for every length, the pairs of that length come out of the
    sort in the order they went in.
  */
  lemma {:induction false} SortByLengthIsStable(s: seq<RubyPair>, n: nat)
    ensures OfLength(SortByLength(s), n) == OfLength(s, n)
  {
    if s != [] {
      var sorted := SortByLength(s[1..]);
      assert SortByLength(s) == InsertByLength(s[0], sorted);
      SortByLengthIsStable(s[1..], n);
      SortByLengthIsSorted(s[1..]);
      InsertOfLength(s[0], sorted, n);
      OfLengthCons(s, n);
    }
  }

  // ---------------------------------------------------------------------
  // Step 3: literal global replacement

  /**
    The substitution patterns of `String.prototype.replace` with a string
    replacement and a pattern without groups: `$$` is a dollar sign, `$&` the
    matched text, `` $` `` the text before the match, `$'` the text after it;
    any other `$` (including `$1` and `$<`) stands for itself.
  */
  function Expand(template: string, matched: string, before: string, after: string): string
  {
    if template == [] then []
    else if StartsWithPattern(template) then
      Substitution(template[1], matched, before, after) + Expand(template[2..], matched, before, after)
    else [template[0]] + Expand(template[1..], matched, before, after)
  }

  /** The characters that may follow `$` in a substitution pattern. */
  predicate IsPatternChar(c: char) { c == '$' || c == '&' || c == '`' || c == '\'' }

  /** What `$c` stands for. */
  function Substitution(c: char, matched: string, before: string, after: string): string
  {
    if c == '$' then "$"
    else if c == '&' then matched
    else if c == '`' then before
    else after
  }

  /** A template without `$` is inserted literally. */
  lemma {:induction false} ExpandLiteral(template: string, matched: string, before: string, after: string)
    requires '$' !in template
    ensures Expand(template, matched, before, after) == template
  {
    if template != [] {
      assert '$' !in template[1..];
      ExpandLiteral(template[1..], matched, before, after);
    }
  }

  /** Whether the template starts with a `$` pattern. */
  predicate StartsWithPattern(template: string)
  {
    |template| >= 2 && template[0] == '$' && IsPatternChar(template[1])
  }

  /** How many characters of the template its first step consumes. */
  function StepLength(template: string): nat
  {
    if StartsWithPattern(template) then 2 else 1
  }

  /** The text the first step of the expansion emits. */
  function StepOutput(template: string, matched: string, before: string, after: string): string
    requires template != []
  {
    if StartsWithPattern(template) then Substitution(template[1], matched, before, after) else [template[0]]
  }

  /** A template that does not end in a `$` can be expanded piece by piece. */
  lemma {:induction false} ExpandAppend(t1: string, t2: string, matched: string, before: string, after: string)
    requires t1 == [] || t1[|t1| - 1] != '$'
    ensures Expand(t1 + t2, matched, before, after)
         == Expand(t1, matched, before, after) + Expand(t2, matched, before, after)
    decreases |t1|
  {
    if t1 == [] {
      assert t1 + t2 == t2;
    } else {
      var n := StepLength(t1);
      var u := t1[n..];
      ExpandStepConcat(t1, t2, matched, before, after);
      ExpandStep(t1, matched, before, after);
      assert u == [] || u[|u| - 1] == t1[|t1| - 1];
      ExpandAppend(u, t2, matched, before, after);
      ConcatAssoc(StepOutput(t1, matched, before, after), Expand(u, matched, before, after), Expand(t2, matched, before, after));
    }
  }

  /** The expansion is its first step followed by the expansion of the rest. */
  lemma ExpandStep(template: string, matched: string, before: string, after: string)
    requires template != []
    ensures StepLength(template) <= |template|
    ensures Expand(template, matched, before, after)
         == StepOutput(template, matched, before, after) + Expand(template[StepLength(template)..], matched, before, after)
  {
  }

  /** The first step of expanding `t1 + t2` is the first step of `t1` when `t1` does not end in `$`. */
  lemma ExpandStepConcat(t1: string, t2: string, matched: string, before: string, after: string)
    requires t1 != [] && t1[|t1| - 1] != '$'
    ensures StepLength(t1) <= |t1|
    ensures Expand(t1 + t2, matched, before, after)
         == StepOutput(t1, matched, before, after) + Expand(t1[StepLength(t1)..] + t2, matched, before, after)
  {
    var t := t1 + t2;
    assert t[0] == t1[0];
    assert t1[0] == '$' ==> |t1| >= 2 && t[1] == t1[1];
    assert StartsWithPattern(t) == StartsWithPattern(t1);
    assert t[StepLength(t1)..] == t1[StepLength(t1)..] + t2;
  }

  /**
    The scan of `text.replace(/pat/g, template)` for a literal pattern,
    from position `i` of `text`: at a match, emit the expanded template and
    resume after the match; otherwise copy one character.
  */
  function ReplaceFrom(text: string, pat: string, template: string, i: nat): string
    requires pat != [] && i <= |text|
    decreases |text| - i
  {
    if i == |text| then []
    else if pat <= text[i..] then
      Expand(template, pat, text[..i], text[i + |pat|..])
      + ReplaceFrom(text, pat, template, i + |pat|)
    else [text[i]] + ReplaceFrom(text, pat, template, i + 1)
  }

  /** `text.replace(new RegExp(_.escapeRegExp(pat), 'g'), template)`. */
  function ReplaceAll(text: string, pat: string, template: string): string
    requires pat != []
  {
    ReplaceFrom(text, pat, template, 0)
  }

  /** A stretch of text without the first character of the word is copied unchanged. */
  lemma {:induction false} ReplaceFromSkip(text: string, pat: string, template: string, i: nat, k: nat)
    requires pat != [] && i <= k <= |text|
    requires pat[0] !in text[i..k]
    ensures ReplaceFrom(text, pat, template, i) == text[i..k] + ReplaceFrom(text, pat, template, k)
    decreases k - i
  {
    if i < k {
      var c := text[i];
      assert c == text[i..k][0] && text[i..][0] == c;
      assert text[i + 1..k] == text[i..k][1..];
      ReplaceFromSkip(text, pat, template, i + 1, k);
      calc {
        ReplaceFrom(text, pat, template, i);
        [c] + ReplaceFrom(text, pat, template, i + 1);
        [c] + (text[i + 1..k] + ReplaceFrom(text, pat, template, k));
        ([c] + text[i + 1..k]) + ReplaceFrom(text, pat, template, k);
        { assert text[i..k] == [c] + text[i + 1..k]; }
        text[i..k] + ReplaceFrom(text, pat, template, k);
      }
    }
  }

  lemma {:induction false} ReplaceFromAbsent(text: string, pat: string, template: string, i: nat)
    requires pat != [] && i <= |text|
    requires !Occurs(text, pat)
    ensures ReplaceFrom(text, pat, template, i) == text[i..]
    decreases |text| - i
  {
    if i < |text| {
      assert !(pat <= text[i..]);
      ReplaceFromAbsent(text, pat, template, i + 1);
    }
  }

  /** Text in which the word does not occur is left as it is. */
  lemma ReplaceAllAbsent(text: string, pat: string, template: string)
    requires pat != []
    requires !Occurs(text, pat)
    ensures ReplaceAll(text, pat, template) == text
  {
    ReplaceFromAbsent(text, pat, template, 0);
  }

  lemma {:induction false} ReplaceFromIsSplitJoin(text: string, pat: string, template: string, i: nat)
    requires pat != [] && i <= |text|
    requires '$' !in template
    ensures ReplaceFrom(text, pat, template, i) == Join(SplitOn(text[i..], pat), template)
    decreases |text| - i
  {
    var suffix := text[i..];
    if i == |text| {
      assert suffix == [];
    } else if pat <= suffix {
      var rest := SplitOn(text[i + |pat|..], pat);
      assert suffix[|pat|..] == text[i + |pat|..];
      ReplaceFromIsSplitJoin(text, pat, template, i + |pat|);
      calc {
        ReplaceFrom(text, pat, template, i);
        Expand(template, pat, text[..i], text[i + |pat|..]) + ReplaceFrom(text, pat, template, i + |pat|);
        { ExpandLiteral(template, pat, text[..i], text[i + |pat|..]); }
        template + Join(rest, template);
        { JoinEmptyFirst(rest, template); }
        Join([[]] + rest, template);
        Join(SplitOn(suffix, pat), template);
      }
    } else {
      var rest := SplitOn(text[i + 1..], pat);
      assert suffix[0] == text[i] && suffix[1..] == text[i + 1..];
      ReplaceFromIsSplitJoin(text, pat, template, i + 1);
      calc {
        ReplaceFrom(text, pat, template, i);
        [text[i]] + ReplaceFrom(text, pat, template, i + 1);
        [text[i]] + Join(rest, template);
        { JoinPrepend(text[i], rest, template); }
        Join([[text[i]] + rest[0]] + rest[1..], template);
        Join(SplitOn(suffix, pat), template);
      }
    }
  }

  /**
    With a `$`-free template the global replacement is exactly
    `text.split(pat).join(template)`: the text between the non-overlapping,
    left-to-right occurrences of the word is kept (and holds no further
    occurrence, `SplitPiecesAreFree`), and each occurrence becomes the template.
  */
  lemma ReplaceAllIsSplitJoin(text: string, pat: string, template: string)
    requires pat != []
    requires '$' !in template
    ensures ReplaceAll(text, pat, template) == Join(SplitOn(text, pat), template)
  {
    ReplaceFromIsSplitJoin(text, pat, template, 0);
    assert text[0..] == text;
  }

  const RubyOpen: string := "<ruby>"
  const AbsoluteRubyOpen: string := "<ruby data-absolute=\"true\">"

  /** The ruby fragment for one pair. */
  function RubyTag(p: RubyPair): (tag: string)
    ensures p.isAbsolute <==> AbsoluteRubyOpen <= tag
    ensures '$' !in p.tango && '$' !in p.reading ==> '$' !in tag
  {
    var open := if p.isAbsolute then AbsoluteRubyOpen else RubyOpen;
    var tag := open + p.tango + "<rt>" + p.reading + "</rt></ruby>";
    assert tag[..|open|] == open;
    assert !p.isAbsolute ==> tag[5] == '>' != AbsoluteRubyOpen[5];
    tag
  }

  /** One step of the `forEach`: annotate every occurrence of `p.tango`. */
  function Annotate(text: string, p: RubyPair): string
    requires p.tango != []
  {
    ReplaceAll(text, p.tango, RubyTag(p))
  }

  /** The pairs applied one after the other, each on the result of the previous ones. */
  function ApplyAll(text: string, ps: seq<RubyPair>): string
    requires forall p | p in ps :: p.tango != []
  {
    if ps == [] then text
    else Annotate(ApplyAll(text, ps[..|ps| - 1]), ps[|ps| - 1])
  }

  // ---------------------------------------------------------------------
  // Step 4: the two-segment result

  const HiddenOpen: string := "<span aria-hidden=\"true\" translate=\"no\">"
  const TranslatableOpen: string := "<span translate=\"yes\">"

  function Wrap(processed: string, source: string): string
  {
    HiddenOpen + processed + SpanClose + TranslatableOpen + source + SpanClose
  }

  lemma WrapSegments(processed: string, source: string)
    ensures HiddenOpen <= Wrap(processed, source)
    ensures var tail := SpanClose + TranslatableOpen + source + SpanClose;
      |tail| <= |Wrap(processed, source)|
      && Wrap(processed, source)[|Wrap(processed, source)| - |tail|..] == tail
  {
    var tail := SpanClose + TranslatableOpen + source + SpanClose;
    var result := Wrap(processed, source);
    assert result == (HiddenOpen + processed) + tail;
    assert result == HiddenOpen + (processed + tail);
  }

  /** The pairs in the order the compiler applies them. */
  function ApplicationOrder(pairs: seq<RubyPair>): (order: seq<RubyPair>)
    ensures forall p | p in order :: IsValid(p)
  {
    var order := SortByLength(ValidPairs(pairs));
    AllValid(pairs);
    assert forall p | p in order :: p in multiset(ValidPairs(pairs));
    order
  }

  /** `processText`: the result markup for the source text and the pairs in the store. */
  function Compile(source: string, pairs: seq<RubyPair>): (result: string)
    ensures HiddenOpen <= result
    ensures var tail := SpanClose + TranslatableOpen + source + SpanClose;
      |tail| <= |result| && result[|result| - |tail|..] == tail
  {
    var processed := ApplyAll(source, ApplicationOrder(pairs));
    WrapSegments(processed, source);
    Wrap(processed, source)
  }

  /** The loop of `processText`, over the ordered valid pairs. */
  method ProcessText(source: string, pairs: seq<RubyPair>) returns (result: string)
    ensures result == Compile(source, pairs)
  {
    var sorted := ApplicationOrder(pairs);
    var processed := source;
    var i := 0;
    while i < |sorted|
      invariant 0 <= i <= |sorted|
      invariant forall p | p in sorted[..i] :: IsValid(p)
      invariant processed == ApplyAll(source, sorted[..i])
    {
      var pair := sorted[i];
      assert pair in sorted;
      assert sorted[..i + 1][..i] == sorted[..i];
      assert forall p | p in sorted[..i + 1] :: p in sorted;
      processed := ReplaceAll(processed, pair.tango, RubyTag(pair));
      i := i + 1;
    }
    assert sorted[..i] == sorted;
    result := Wrap(processed, source);
  }

  // ---------------------------------------------------------------------
  // Properties of the compiler

  /** The applied pairs are the valid pairs, by descending length, ties in store order. */
  lemma ApplicationOrderSpec(pairs: seq<RubyPair>, n: nat)
    ensures var order := ApplicationOrder(pairs);
      && SortedByLengthDesc(order)
      && multiset(order) == multiset(ValidPairs(pairs))
      && OfLength(order, n) == OfLength(ValidPairs(pairs), n)
  {
    SortByLengthIsStable(ValidPairs(pairs), n);
    SortByLengthIsSorted(ValidPairs(pairs));
  }

  /** An incomplete pair, wherever it stands in the store, changes nothing in the result. */
  lemma InvalidPairIsIgnored(source: string, pairs: seq<RubyPair>, i: nat, bad: RubyPair)
    requires i <= |pairs|
    requires !IsValid(bad)
    ensures Compile(source, pairs[..i] + [bad] + pairs[i..]) == Compile(source, pairs)
  {
    var longer := pairs[..i] + [bad] + pairs[i..];
    ValidPairsAppend(pairs[..i] + [bad], pairs[i..]);
    ValidPairsAppend(pairs[..i], [bad]);
    ValidPairsAppend(pairs[..i], pairs[i..]);
    assert ValidPairs([bad]) == [] by {
      assert [bad][1..] == [];
    }
    assert pairs[..i] + pairs[i..] == pairs;
    assert ValidPairs(longer) == ValidPairs(pairs);
    assert ApplicationOrder(longer) == ApplicationOrder(pairs);
  }

  /** Without a valid pair both segments are the source. */
  lemma NoValidPairs(source: string, pairs: seq<RubyPair>)
    requires forall p | p in pairs :: !IsValid(p)
    ensures Compile(source, pairs) == Wrap(source, source)
  {
    assert ValidPairs(pairs) == [] by {
      if ValidPairs(pairs) != [] {
        var x := ValidPairs(pairs)[0];
        ValidPairsCount(pairs, x);
      }
    }
  }

  lemma {:induction false} ApplyAllEmpty(ps: seq<RubyPair>)
    requires forall p | p in ps :: p.tango != []
    ensures ApplyAll([], ps) == []
  {
    if ps != [] {
      ApplyAllEmpty(ps[..|ps| - 1]);
    }
  }

  /** An empty source compiles to two empty segments, whatever the pairs. */
  lemma EmptySource(pairs: seq<RubyPair>)
    ensures Compile([], pairs) == Wrap([], [])
  {
    ApplyAllEmpty(ApplicationOrder(pairs));
  }

  /** When no word occurs in the text, the processed segment is the text itself. */
  lemma {:induction false} ApplyAllAbsent(text: string, ps: seq<RubyPair>)
    requires forall p | p in ps :: p.tango != [] && !Occurs(text, p.tango)
    ensures ApplyAll(text, ps) == text
  {
    if ps != [] {
      var last := ps[|ps| - 1];
      ApplyAllAbsent(text, ps[..|ps| - 1]);
      ReplaceAllAbsent(text, last.tango, RubyTag(last));
    }
  }

  /**
    For pairs without `$`, one step of the loop is the split/join of the
    current text on the word, with the ruby fragment between the pieces.
  */
  lemma AnnotateIsSplitJoin(text: string, p: RubyPair)
    requires p.tango != []
    requires '$' !in p.tango && '$' !in p.reading
    ensures Annotate(text, p) == Join(SplitOn(text, p.tango), RubyTag(p))
  {
    ReplaceAllIsSplitJoin(text, p.tango, RubyTag(p));
  }
}
