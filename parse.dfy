/**
  Reading the language model's answers.

  `analyzeFullText` receives lines of the form `word:reading` and keeps, per
  line, the first match of `([一-龯぀-ゟ゠-ヿ]+):([぀-ゟ]+)`;
  `generateSuggestions` keeps every maximal hiragana run of its answer. Both
  drop repeats, keeping first occurrences. The answers themselves are inputs.
*/
module Parse {
  import opened Wrappers
  import opened Text
  import opened Pairs
  import opened Dedupe

  /** The length of the run of `inClass` characters that starts at `s[i]`. */
  function RunLength(s: string, i: nat, inClass: char -> bool): (n: nat)
    requires i <= |s|
    ensures i + n <= |s|
    ensures forall k | i <= k < i + n :: inClass(s[k])
    ensures i + n == |s| || !inClass(s[i + n])
    decreases |s| - i
  {
    if i < |s| && inClass(s[i]) then 1 + RunLength(s, i + 1, inClass) else 0
  }

  /** Any stretch of `inClass` characters from `i` lies inside the run from `i`. */
  lemma {:induction false} RunLengthCovers(s: string, i: nat, j: nat, inClass: char -> bool)
    requires i <= j <= |s|
    requires forall k | i <= k < j :: inClass(s[k])
    ensures j <= i + RunLength(s, i, inClass)
    decreases j - i
  {
    if i < j {
      RunLengthCovers(s, i + 1, j, inClass);
    }
  }

  /** The run from `i` ends at the latest at the first character outside the class. */
  lemma {:induction false} RunLengthStops(s: string, i: nat, j: nat, inClass: char -> bool)
    requires i <= j < |s| && !inClass(s[j])
    ensures i + RunLength(s, i, inClass) <= j
    decreases j - i
  {
    if i < j && inClass(s[i]) {
      RunLengthStops(s, i + 1, j, inClass);
    }
  }

  /** A stretch of `inClass` characters that cannot be extended is the run. */
  lemma RunLengthExact(s: string, i: nat, j: nat, inClass: char -> bool)
    requires i <= j <= |s|
    requires forall k | i <= k < j :: inClass(s[k])
    requires j == |s| || !inClass(s[j])
    ensures RunLength(s, i, inClass) == j - i
  {
    RunLengthCovers(s, i, j, inClass);
  }

  // ---------------------------------------------------------------------
  // One response line

  /** Where a `word:reading` match starts, and its two groups. */
  datatype LineMatch = LineMatch(start: nat, tango: string, reading: string)

  /**
    The pattern `([word]+):([hiragana]+)` can match `line` at `p` with these
    groups: a non-empty word, a colon and a non-empty hiragana reading.
  */
  predicate Matches(line: string, p: nat, tango: string, reading: string)
  {
    && p <= |line|
    && tango != [] && AllIn(tango, IsWordChar)
    && reading != [] && AllIn(reading, IsHiragana)
    && tango + ":" + reading <= line[p..]
  }

  /** No hiragana character follows the reading of the match at `p`. */
  predicate ReadingIsWholeRun(line: string, p: nat, tango: string, reading: string)
  {
    var e := p + |tango| + 1 + |reading|;
    e >= |line| || !IsHiragana(line[e])
  }

  /**
    The match at position `p` that a backtracking regex engine reports: both
    groups greedy. A colon is not a word character, so the only word run that
    can be followed by `:` is the whole run from `p`.
  */
  function MatchAt(line: string, p: nat): (m: Option<LineMatch>)
    requires p <= |line|
    ensures m.Some? ==> m.value.start == p && Matches(line, p, m.value.tango, m.value.reading)
    ensures m.Some? ==> ReadingIsWholeRun(line, p, m.value.tango, m.value.reading)
  {
    var n := RunLength(line, p, IsWordChar);
    if n == 0 || p + n == |line| || line[p + n] != ':' then None
    else
      var k := RunLength(line, p + n + 1, IsHiragana);
      if k == 0 then None
      else
        var tango, reading := line[p..p + n], line[p + n + 1..p + n + 1 + k];
        MatchText(line, p, n, k);
        Some(LineMatch(p, tango, reading))
  }

  /** The text matched at `p`: the word, the colon and the reading, in a row. */
  lemma MatchText(line: string, p: nat, n: nat, k: nat)
    requires p + n + 1 + k <= |line| && line[p + n] == ':'
    ensures line[p..][..n + 1 + k] == line[p..p + n] + ":" + line[p + n + 1..p + n + 1 + k]
  {
    var w := line[p..p + n] + ":" + line[p + n + 1..p + n + 1 + k];
    assert |w| == n + 1 + k;
    forall i | 0 <= i < n + 1 + k ensures line[p..][..n + 1 + k][i] == w[i] {
      if i < n {
        assert w[i] == line[p + i];
      } else if i > n {
        assert w[i] == line[p + n + 1..p + n + 1 + k][i - n - 1];
      }
    }
  }

  /**
    Whenever the pattern can match at `p`, `MatchAt` reports a match there,
    with the same word and the longest reading.
  */
  lemma MatchAtComplete(line: string, p: nat, tango: string, reading: string)
    requires Matches(line, p, tango, reading)
    ensures MatchAt(line, p).Some?
    ensures MatchAt(line, p).value.tango == tango
    ensures reading <= MatchAt(line, p).value.reading
  {
    var n, r := |tango|, |reading|;
    MatchRuns(line, p, tango, reading);
    var k := RunLength(line, p + n + 1, IsHiragana);
    MatchAtOfRuns(line, p, n);
    SlicePrefix(line, p + n + 1, r, k);
  }

  lemma SlicePrefix(s: string, i: nat, r: nat, k: nat)
    requires r <= k && i + k <= |s|
    ensures s[i..i + r] <= s[i..i + k]
  {
    assert s[i..i + k][..r] == s[i..i + r];
  }

  /** `MatchAt` when the word run from `p` is followed by a colon and a hiragana run. */
  lemma MatchAtOfRuns(line: string, p: nat, n: nat)
    requires 1 <= n && p + n < |line| && line[p + n] == ':'
    requires RunLength(line, p, IsWordChar) == n
    requires RunLength(line, p + n + 1, IsHiragana) >= 1
    ensures var k := RunLength(line, p + n + 1, IsHiragana);
      MatchAt(line, p) == Some(LineMatch(p, line[p..p + n], line[p + n + 1..p + n + 1 + k]))
  {
  }

  /** A match of the pattern lies on the word run from `p` and inside the hiragana run after the colon. */
  lemma MatchRuns(line: string, p: nat, tango: string, reading: string)
    requires Matches(line, p, tango, reading)
    ensures var n, r := |tango|, |reading|;
      && p + n + 1 + r <= |line|
      && line[p..p + n] == tango
      && line[p + n] == ':'
      && line[p + n + 1..p + n + 1 + r] == reading
      && RunLength(line, p, IsWordChar) == n
      && r <= RunLength(line, p + n + 1, IsHiragana)
  {
    var n, r := |tango|, |reading|;
    MatchSlices(line, p, tango, reading);
    SliceInClass(line, p, p + n, IsWordChar);
    RunLengthExact(line, p, p + n, IsWordChar);
    SliceInClass(line, p + n + 1, p + n + 1 + r, IsHiragana);
    RunLengthCovers(line, p + n + 1, p + n + 1 + r, IsHiragana);
  }

  /** Where the parts of a match lie in the line. */
  lemma MatchSlices(line: string, p: nat, tango: string, reading: string)
    requires Matches(line, p, tango, reading)
    ensures var n, r := |tango|, |reading|;
      && p + n + 1 + r <= |line|
      && line[p..p + n] == tango
      && line[p + n] == ':'
      && line[p + n + 1..p + n + 1 + r] == reading
  {
    var w := tango + ":" + reading;
    var n := |tango|;
    assert line[p..][..|w|] == w;
    assert line[p..p + |w|] == w;
    assert w[..n] == tango && w[n] == ':' && w[n + 1..] == reading;
  }

  lemma SliceInClass(s: string, i: nat, j: nat, inClass: char -> bool)
    requires i <= j <= |s| && AllIn(s[i..j], inClass)
    ensures forall k | i <= k < j :: inClass(s[k])
  {
    forall k | i <= k < j ensures inClass(s[k]) {
      assert s[k] == s[i..j][k - i];
    }
  }

  /** The first match at `p` or later: the engine tries each start in turn. */
  function FirstMatchFrom(line: string, p: nat): (m: Option<LineMatch>)
    requires p <= |line|
    ensures m.Some? ==> p <= m.value.start <= |line| && MatchAt(line, m.value.start) == m
    ensures m.Some? ==> forall q | p <= q < m.value.start :: MatchAt(line, q).None?
    ensures m.None? ==> forall q | p <= q <= |line| :: MatchAt(line, q).None?
    decreases |line| - p
  {
    var here := MatchAt(line, p);
    if here.Some? then here
    else if p == |line| then None
    else FirstMatchFrom(line, p + 1)
  }

  /** `line.match(regex)` without the `g` flag. */
  function FirstMatch(line: string): Option<LineMatch>
  {
    FirstMatchFrom(line, 0)
  }

  /**
    The reported match is a match of the pattern with the whole hiragana run as
    its reading, and no match of the pattern starts further left; when nothing
    is reported, the pattern matches nowhere.
  */
  lemma FirstMatchIsLeftmost(line: string)
    ensures FirstMatch(line).Some? ==>
      var x := FirstMatch(line).value;
      Matches(line, x.start, x.tango, x.reading)
      && (forall q: nat, t, r | q < x.start && Matches(line, q, t, r) :: false)
      && ReadingIsWholeRun(line, x.start, x.tango, x.reading)
    ensures FirstMatch(line).None? ==> forall q: nat, t, r | Matches(line, q, t, r) :: false
  {
    forall q: nat, t, r | Matches(line, q, t, r) ensures MatchAt(line, q).Some? {
      MatchAtComplete(line, q, t, r);
    }
  }

  /** The reported word cannot be extended to the left either: it is a whole run. */
  lemma FirstMatchWordIsMaximal(line: string)
    requires FirstMatch(line).Some?
    ensures var x := FirstMatch(line).value;
      x.start == 0 || !IsWordChar(line[x.start - 1])
  {
    var x := FirstMatch(line).value;
    FirstMatchIsLeftmost(line);
    if x.start > 0 && IsWordChar(line[x.start - 1]) {
      MatchesExtendLeft(line, x.start - 1, x.tango, x.reading);
      assert false;
    }
  }

  /** A word character just before a match extends it to a match one position further left. */
  lemma MatchesExtendLeft(line: string, q: nat, tango: string, reading: string)
    requires q < |line| && IsWordChar(line[q]) && Matches(line, q + 1, tango, reading)
    ensures Matches(line, q, [line[q]] + tango, reading)
  {
    var w := tango + ":" + reading;
    assert line[q..] == [line[q]] + line[q + 1..];
    ConcatAssoc([line[q]], tango, ":");
    ConcatAssoc([line[q]], tango + ":", reading);
    assert [line[q]] + tango + ":" + reading == [line[q]] + w;
  }

  // ---------------------------------------------------------------------
  // The whole response of `analyzeFullText`

  /**
    The pair a response line yields, if any (`match[1]`, `match[2]`, not
    absolute): a line yields a pair exactly when the pattern matches somewhere
    in it, and the pair's word and reading are the groups of a match that
    starts where no match starts further left, with the whole hiragana run
    after the colon as the reading.
  */
  function LinePair(line: string): (pair: Option<RubyPair>)
    ensures pair.Some? <==> exists q: nat, t, r :: Matches(line, q, t, r)
    ensures pair.Some? ==> !pair.value.isAbsolute
    ensures pair.Some? ==> exists q: nat ::
      && Matches(line, q, pair.value.tango, pair.value.reading)
      && (forall q0: nat, t, r | q0 < q :: !Matches(line, q0, t, r))
      && ReadingIsWholeRun(line, q, pair.value.tango, pair.value.reading)
  {
    FirstMatchIsLeftmost(line);
    match FirstMatch(line)
    case None => None
    case Some(x) =>
      assert Matches(line, x.start, x.tango, x.reading);
      Some(RubyPair(x.tango, x.reading, false))
  }

  /** Every pair parsed from the answer is usable: valid, a word and a hiragana reading. */
  predicate IsParsed(p: RubyPair)
  {
    IsValid(p) && !p.isAbsolute && AllIn(p.tango, IsWordChar) && AllIn(p.reading, IsHiragana)
  }

  /** `.map(match).filter(notNull).map(toPair)` over the lines. */
  function PairsOf(lines: seq<string>): (pairs: seq<RubyPair>)
    ensures |pairs| <= |lines|
    ensures forall p | p in pairs :: IsParsed(p)
  {
    if lines == [] then []
    else
      var rest := PairsOf(lines[1..]);
      match LinePair(lines[0])
      case None => rest
      case Some(p) =>
        FirstMatchIsLeftmost(lines[0]);
        [p] + rest
  }

  /** Lines are handled one by one: the pairs of two blocks of lines are the pairs of each. */
  lemma {:induction false} PairsOfAppend(a: seq<string>, b: seq<string>)
    ensures PairsOf(a + b) == PairsOf(a) + PairsOf(b)
  {
    if a != [] {
      assert (a + b)[0] == a[0] && (a + b)[1..] == a[1..] + b;
      PairsOfAppend(a[1..], b);
    } else {
      assert a + b == b;
    }
  }

  lemma PairsOfCons(lines: seq<string>)
    requires lines != []
    ensures PairsOf(lines) == match LinePair(lines[0])
      case None => PairsOf(lines[1..])
      case Some(p) => [p] + PairsOf(lines[1..])
  {
  }

  /** A pair is parsed exactly when some line yields it. */
  lemma {:induction false} PairsOfFromLines(lines: seq<string>, p: RubyPair)
    ensures p in PairsOf(lines) <==> exists line | line in lines :: LinePair(line) == Some(p)
  {
    if lines != [] {
      PairsOfFromLines(lines[1..], p);
      PairsOfCons(lines);
      assert forall line | line in lines :: line == lines[0] || line in lines[1..];
    }
  }

  /** `text.split('\n')`. */
  function Lines(text: string): seq<string>
  {
    SplitOn(text, "\n")
  }

  /** The `uniquePairs` of `analyzeFullText`: `_.uniqBy(pairs, 'tango')`. */
  function ParseResponse(text: string): (pairs: seq<RubyPair>)
    ensures forall p | p in pairs :: IsParsed(p)
  {
    var all := PairsOf(Lines(text));
    UniqBySubset(all, TangoOf, {});
    UniqBy(all, TangoOf)
  }

  /**
    The parsed pairs have pairwise distinct words; each is the first pair of
    the answer with its word, in the order the words first appear; and every
    word the answer pairs with a reading is there.
  */
  lemma ParseResponseSpec(text: string)
    ensures var all, pairs := PairsOf(Lines(text)), ParseResponse(text);
      && (forall j1, j2 | 0 <= j1 < j2 < |pairs| :: pairs[j1].tango != pairs[j2].tango)
      && (forall j | 0 <= j < |pairs| ::
            FirstIndex(all, TangoOf, pairs[j].tango) < |all|
            && pairs[j] == all[FirstIndex(all, TangoOf, pairs[j].tango)])
      && (forall j1, j2 | 0 <= j1 < j2 < |pairs| ::
            FirstIndex(all, TangoOf, pairs[j1].tango) < FirstIndex(all, TangoOf, pairs[j2].tango))
      && Keys(pairs, TangoOf) == Keys(all, TangoOf)
  {
    var all := PairsOf(Lines(text));
    UniqByKeepsFirstOccurrences(all, TangoOf);
    UniqByDistinct(all, TangoOf);
  }

  /**
    Words and readings of parsed pairs hold no `$`, so their ruby fragments
    are inserted literally by `replace` (see `Compiler.ReplaceAllIsSplitJoin`).
  */
  lemma ParsedPairsHaveNoDollar(p: RubyPair)
    requires IsParsed(p)
    ensures '$' !in p.tango && '$' !in p.reading
  {
    forall k | 0 <= k < |p.tango| ensures p.tango[k] != '$' {
      assert IsWordChar(p.tango[k]);
    }
    forall k | 0 <= k < |p.reading| ensures p.reading[k] != '$' {
      assert IsHiragana(p.reading[k]);
    }
  }

  /** The line the prompt asks the model to write for a pair: `word:reading`. */
  function FormatLine(p: RubyPair): string
  {
    p.tango + ":" + p.reading
  }

  /** The whole answer the prompt asks for: one line per pair. */
  function FormatResponse(ps: seq<RubyPair>): string
  {
    Join(FormatLines(ps), "\n")
  }

  function FormatLines(ps: seq<RubyPair>): (lines: seq<string>)
    ensures |lines| == |ps| && forall k | 0 <= k < |ps| :: lines[k] == FormatLine(ps[k])
  {
    if ps == [] then [] else [FormatLine(ps[0])] + FormatLines(ps[1..])
  }

  /** A well-formed line parses back to its pair. */
  lemma LinePairOfFormatLine(p: RubyPair)
    requires IsParsed(p)
    ensures LinePair(FormatLine(p)) == Some(p)
  {
    var line := FormatLine(p);
    assert line[0..] == line;
    assert Matches(line, 0, p.tango, p.reading);
    MatchAtComplete(line, 0, p.tango, p.reading);
    var m := MatchAt(line, 0).value;
    assert |m.tango + ":" + m.reading| <= |line|;
    assert m.reading == p.reading;
    assert FirstMatch(line) == MatchAt(line, 0);
  }

  lemma {:induction false} PairsOfFormatLines(ps: seq<RubyPair>)
    requires forall p | p in ps :: IsParsed(p)
    ensures PairsOf(FormatLines(ps)) == ps
  {
    if ps != [] {
      var lines := FormatLines(ps);
      assert lines[1..] == FormatLines(ps[1..]);
      LinePairOfFormatLine(ps[0]);
      PairsOfFormatLines(ps[1..]);
      assert [ps[0]] + ps[1..] == ps;
    }
  }

  lemma FormatLineHasNoNewline(p: RubyPair)
    requires IsParsed(p)
    ensures '\n' !in FormatLine(p)
  {
    var line := FormatLine(p);
    forall k | 0 <= k < |line| ensures line[k] != '\n' {
      if k < |p.tango| {
        assert line[k] == p.tango[k] && IsWordChar(p.tango[k]);
      } else if k > |p.tango| {
        assert line[k] == p.reading[k - |p.tango| - 1] && IsHiragana(p.reading[k - |p.tango| - 1]);
      }
    }
  }

  /**
    Round trip: an answer in exactly the requested format, for pairs with
    distinct words, parses back to those pairs, in order.
  */
  lemma ParseFormattedResponse(ps: seq<RubyPair>)
    requires forall p | p in ps :: IsParsed(p)
    requires forall j1, j2 | 0 <= j1 < j2 < |ps| :: ps[j1].tango != ps[j2].tango
    ensures ParseResponse(FormatResponse(ps)) == ps
  {
    var lines := FormatLines(ps);
    if ps == [] {
      assert Lines(FormatResponse(ps)) == [[]];
      assert PairsOf([[]]) == [] by {
        assert LinePair([]) == None;
      }
    } else {
      forall k | 0 <= k < |lines| ensures '\n' !in lines[k] {
        FormatLineHasNoNewline(ps[k]);
      }
      SplitJoin(lines, '\n');
      PairsOfFormatLines(ps);
    }
    UniqByOfDistinct(ps, TangoOf);
  }

  // ---------------------------------------------------------------------
  // Reading suggestions

  /** `i` is not strictly inside a hiragana run: the global scan may resume there. */
  predicate AtRunBoundary(text: string, i: nat)
  {
    i == 0 || i >= |text| || !IsHiragana(text[i - 1]) || !IsHiragana(text[i])
  }

  /** `text[j..j+n]` is a hiragana run that extends neither to the left nor to the right. */
  predicate IsMaximalRun(text: string, j: nat, n: nat)
  {
    && 1 <= n && j + n <= |text|
    && (forall k | j <= k < j + n :: IsHiragana(text[k]))
    && (j == 0 || !IsHiragana(text[j - 1]))
    && (j + n == |text| || !IsHiragana(text[j + n]))
  }

  /** The matches of `/[぀-ゟ]+/g` from position `i` on, left to right. */
  function HiraganaRunsFrom(text: string, i: nat): (runs: seq<string>)
    requires i <= |text|
    ensures forall r | r in runs :: r != [] && AllIn(r, IsHiragana)
    decreases |text| - i
  {
    if i == |text| then []
    else if IsHiragana(text[i]) then
      var n := RunLength(text, i, IsHiragana);
      [text[i..i + n]] + HiraganaRunsFrom(text, i + n)
    else HiraganaRunsFrom(text, i + 1)
  }

  /** `text.match(/[぀-ゟ]+/g) || []`. */
  function HiraganaRuns(text: string): seq<string>
  {
    HiraganaRunsFrom(text, 0)
  }

  /** Every match of the global scan is a maximal hiragana run of the text. */
  lemma {:induction false} HiraganaRunsAreMaximal(text: string, i: nat)
    requires i <= |text| && AtRunBoundary(text, i)
    ensures forall r | r in HiraganaRunsFrom(text, i) ::
      exists j: nat, n: nat | i <= j && IsMaximalRun(text, j, n) :: text[j..j + n] == r
    decreases |text| - i
  {
    if i < |text| {
      if IsHiragana(text[i]) {
        var n := RunLength(text, i, IsHiragana);
        HiraganaRunsAreMaximal(text, i + n);
        assert IsMaximalRun(text, i, n);
      } else {
        HiraganaRunsAreMaximal(text, i + 1);
      }
    }
  }

  /** Every maximal hiragana run of the text is a match of the global scan. */
  lemma {:induction false} MaximalRunsAreFound(text: string, i: nat, j: nat, n: nat)
    requires i <= j && IsMaximalRun(text, j, n)
    requires AtRunBoundary(text, i)
    ensures text[j..j + n] in HiraganaRunsFrom(text, i)
    decreases |text| - i
  {
    assert i < |text|;
    if IsHiragana(text[i]) {
      var m := RunLength(text, i, IsHiragana);
      if j == i {
        RunLengthExact(text, i, i + n, IsHiragana);
      } else {
        RunLengthStops(text, i, j - 1, IsHiragana);
        MaximalRunsAreFound(text, i + m, j, n);
      }
    } else {
      assert j != i;
      MaximalRunsAreFound(text, i + 1, j, n);
    }
  }

  /** Where each match of the global scan from `i` starts. */
  function RunStartsFrom(text: string, i: nat): (starts: seq<nat>)
    requires i <= |text|
    ensures |starts| == |HiraganaRunsFrom(text, i)|
    decreases |text| - i
  {
    if i == |text| then []
    else if IsHiragana(text[i]) then
      [i] + RunStartsFrom(text, i + RunLength(text, i, IsHiragana))
    else RunStartsFrom(text, i + 1)
  }

  /** Every start is at least `lo`, and the starts increase. */
  predicate IncreasingFrom(starts: seq<nat>, lo: nat)
  {
    && (forall k | 0 <= k < |starts| :: lo <= starts[k])
    && (forall k1, k2 | 0 <= k1 < k2 < |starts| :: starts[k1] < starts[k2])
  }

  lemma IncreasingCons(i: nat, lo: nat, starts: seq<nat>)
    requires IncreasingFrom(starts, lo) && i < lo
    ensures IncreasingFrom([i] + starts, i)
  {
    var s := [i] + starts;
    assert forall k | 1 <= k < |s| :: s[k] == starts[k - 1];
  }

  /** The matches from `i` start at `i` or later, further right each time. */
  lemma {:induction false} RunStartsIncrease(text: string, i: nat)
    requires i <= |text|
    ensures IncreasingFrom(RunStartsFrom(text, i), i)
    decreases |text| - i
  {
    if i < |text| {
      if IsHiragana(text[i]) {
        var n := RunLength(text, i, IsHiragana);
        RunStartsIncrease(text, i + n);
        assert RunStartsFrom(text, i) == [i] + RunStartsFrom(text, i + n);
        IncreasingCons(i, i + n, RunStartsFrom(text, i + n));
      } else {
        RunStartsIncrease(text, i + 1);
        assert RunStartsFrom(text, i) == RunStartsFrom(text, i + 1);
      }
    }
  }

  /** `runs[k]` is the maximal hiragana run of `text` that starts at `starts[k]`, for every k. */
  predicate ListsRuns(text: string, starts: seq<nat>, runs: seq<string>)
  {
    && |starts| == |runs|
    && forall k | 0 <= k < |starts| ::
      && IsMaximalRun(text, starts[k], |runs[k]|)
      && runs[k] == text[starts[k]..starts[k] + |runs[k]|]
  }

  lemma ListsRunsCons(text: string, i: nat, n: nat, starts: seq<nat>, runs: seq<string>)
    requires IsMaximalRun(text, i, n) && ListsRuns(text, starts, runs)
    ensures ListsRuns(text, [i] + starts, [text[i..i + n]] + runs)
  {
    var s, r := [i] + starts, [text[i..i + n]] + runs;
    forall k | 1 <= k < |s|
      ensures IsMaximalRun(text, s[k], |r[k]|) && r[k] == text[s[k]..s[k] + |r[k]|]
    {
      assert s[k] == starts[k - 1] && r[k] == runs[k - 1];
    }
  }

  /**
    The k-th match of the global scan is the maximal hiragana run that starts
    at the k-th start; with `RunStartsIncrease`, the scan lists the maximal
    runs from left to right.
  */
  lemma {:induction false} HiraganaRunsInTextOrder(text: string, i: nat)
    requires i <= |text| && AtRunBoundary(text, i)
    ensures ListsRuns(text, RunStartsFrom(text, i), HiraganaRunsFrom(text, i))
    decreases |text| - i
  {
    if i < |text| {
      if IsHiragana(text[i]) {
        var n := RunLength(text, i, IsHiragana);
        assert AtRunBoundary(text, i + n);
        HiraganaRunsInTextOrder(text, i + n);
        assert IsMaximalRun(text, i, n);
        assert RunStartsFrom(text, i) == [i] + RunStartsFrom(text, i + n);
        assert HiraganaRunsFrom(text, i) == [text[i..i + n]] + HiraganaRunsFrom(text, i + n);
        ListsRunsCons(text, i, n, RunStartsFrom(text, i + n), HiraganaRunsFrom(text, i + n));
      } else {
        HiraganaRunsInTextOrder(text, i + 1);
        assert RunStartsFrom(text, i) == RunStartsFrom(text, i + 1);
        assert HiraganaRunsFrom(text, i) == HiraganaRunsFrom(text, i + 1);
      }
    }
  }

  function Identity(s: string): string { s }

  /** `[...new Set(readingSuggestions)]`. */
  function Suggestions(text: string): (suggestions: seq<string>)
    ensures forall r | r in suggestions :: r != [] && AllIn(r, IsHiragana)
  {
    var runs := HiraganaRuns(text);
    UniqBySubset(runs, Identity, {});
    UniqBy(runs, Identity)
  }

  /**
    The suggestions are exactly the maximal hiragana runs of the answer, each
    listed once, in the order of their first appearance among the matches
    (which `HiraganaRunsInTextOrder` shows to be the runs from left to right).
  */
  lemma SuggestionsSpec(text: string)
    ensures var s := Suggestions(text);
      && (forall j1, j2 | 0 <= j1 < j2 < |s| :: s[j1] != s[j2])
      && (forall j1, j2 | 0 <= j1 < j2 < |s| ::
            FirstIndex(HiraganaRuns(text), Identity, s[j1]) < FirstIndex(HiraganaRuns(text), Identity, s[j2]))
      && (forall r | r in s :: exists j: nat, n: nat | IsMaximalRun(text, j, n) :: text[j..j + n] == r)
      && (forall j: nat, n: nat | IsMaximalRun(text, j, n) :: text[j..j + n] in s)
  {
    var runs := HiraganaRuns(text);
    var s := Suggestions(text);
    UniqByKeepsFirstOccurrences(runs, Identity);
    UniqByDistinct(runs, Identity);
    UniqBySubset(runs, Identity, {});
    HiraganaRunsAreMaximal(text, 0);
    forall j: nat, n: nat | IsMaximalRun(text, j, n) ensures text[j..j + n] in s {
      MaximalRunsAreFound(text, 0, j, n);
      var r := text[j..j + n];
      assert Identity(r) in Keys(runs, Identity);
      assert Identity(r) in Keys(s, Identity);
    }
  }
}
