# Kanji ruby annotation engine, modelled in Dafny

The tool annotates Japanese text with ruby (furigana). The user keeps a list
of pairs, each a word (`tango`), its reading and an "absolute" hint. The tool
compiles the source text into markup with two segments. The first segment is
the text with every word wrapped in `<ruby>word<rt>reading</rt></ruby>`. The
second segment is the untouched source. A preview marks every kanji of the
source in red. A language model may propose readings for a word, or
`word:reading` lines for the whole text. This project models the text
processing, the pair list and the parsing of the model's answers.

Modules, one per file:

- `Wrappers` (`wrappers.dfy`): `Option`.
- `Text` (`text.dfy`): the character classes (kanji U+4E00–U+9FAF, hiragana U+3040–U+309F, katakana U+30A0–U+30FF), JavaScript's UTF-16 `length`, `split` and `join`.
- `Highlighter` (`highlighter.dfy`): `colorizeText` as a loop (`Colorize`) proved against the function `Highlight`, and its inverse `Unhighlight`.
- `Dedupe` (`dedupe.dfy`): lodash `uniqBy` and `[...new Set(xs)]`, both first-occurrence deduplication.
- `Pairs` (`pairs.dfy`): the `RubyPair` record.
- `Compiler` (`compiler.dfy`): `processText`. It has four steps:
  - the filter;
  - the stable sort by descending `tango.length`;
  - the global literal replacement, including the `$` patterns of `String.prototype.replace`;
  - the two-segment wrapper.

  The `forEach` loop is the method `ProcessText`, proved against the function `Compile`.
- `CompilerExamples` (`compiler_examples.dfy`): the compiler on concrete inputs.
- `Parse` (`parse.dfy`): the parser of `analyzeFullText` and the suggestion extractor of `generateSuggestions`.
  - The parser does the line split, the first regex match per line with greedy groups, and `uniqBy` on the word.
  - The extractor collects the maximal hiragana runs and applies `new Set`.
- `Store` (`store.dfy`): the component state as the class `RubyEditor`, whose handlers change the fields in place.

Strings are sequences of Unicode scalar values, which is what `for…of`
walks on well-formed text. The sort key is `tango.length`, which counts UTF-16 code units, so the
model sorts by `Utf16Length`. That length equals the character count on
Basic Multilingual Plane text. The regex classes hold only BMP characters, so
a character outside the BMP matches none of them in either reading.

Each replacement runs over the text that earlier replacements have already
rewritten (src/App.tsx:222-225). After 東京 becomes
`<ruby>東京<rt>とうきょう</rt></ruby>`, a later pair 京 rewrites the 京 inside
that fragment, which gives nested ruby, whichever order the two pairs have in
the store. `CompilerExamples.ShorterWordInsideLongerFragment` proves it.

## Model

| member | source | states |
|---|---|---|
| Text.Utf16Length | src/App.tsx:220 | `tango.length` is between the character count and twice it, and equals the character count exactly when every character is in the BMP |
| Text.IsIdeograph | src/App.tsx:89 | no contract of its own: the character class `[\u4e00-\u9faf]`; `Highlighter.IdeographExamples` and `Highlighter.Highlight` state it |
| Text.SplitOn | src/App.tsx:196 | `split` always gives at least one piece, and the first piece is a prefix of the text; `Text.JoinSplit`, `Text.SplitPiecesAreFree` and `Text.SplitJoin` state the rest |
| Text.JoinSplit | src/App.tsx:196 | joining the pieces of `split(sep)` with `sep` gives back the text |
| Text.SplitPiecesAreFree | src/App.tsx:196 | no piece of `split(sep)` contains `sep` |
| Text.SplitJoin | src/App.tsx:196 | splitting a `\n`-joined list of lines that hold no `\n` gives back the lines |
| Highlighter.Chunk | src/App.tsx:89-93 | no contract of its own: what one character of the loop appends; `Highlighter.HighlightOne`, `Highlighter.Highlight` and `Highlighter.UnhighlightHighlight` state it |
| Highlighter.Highlight | src/App.tsx:86-96 | the markup is 33 characters longer than the text for each kanji (the span around it) and as long as the text otherwise |
| Highlighter.UnhighlightHighlight | src/App.tsx:86-96 | removing the red spans from the preview recovers the source exactly, for every source |
| Highlighter.NoIdeographInOpening | src/App.tsx:90 | none of the first 26 characters of a preview is a kanji, so a copied character is never taken for a span |
| Highlighter.Colorize | src/App.tsx:86-96 | the `for…of` loop builds `Highlight(source)`, from which `Unhighlight` recovers the source |
| Highlighter.IdeographExamples | src/App.tsx:89 | 山 is a kanji; ま and A are not |
| Dedupe.UniqBy | src/App.tsx:202 | no contract of its own: `_.uniqBy`, also `[...new Set(...)]` at src/App.tsx:160 with the identity key; `Dedupe.UniqByKeepsFirstOccurrences`, `Dedupe.UniqByDistinct`, `Dedupe.UniqBySubset` and `Dedupe.UniqByOfDistinct` state it |
| Dedupe.FirstIndex | src/App.tsx:202 | the index of the first element with a key is in range, has that key, and no earlier element has it |
| Dedupe.UniqByFromKept | src/App.tsx:202 | with some keys already seen, each kept element has an unseen key and is the first element with that key |
| Dedupe.UniqByFromOrder | src/App.tsx:202 | the kept elements are in the order of the first occurrences of their keys |
| Dedupe.UniqByFromKeys | src/App.tsx:202 | the kept keys are exactly the keys not seen before |
| Dedupe.UniqByKeepsFirstOccurrences | src/App.tsx:202 | `uniqBy` keeps the first element of each key, in order of first occurrence, and loses no key |
| Dedupe.UniqByDistinct | src/App.tsx:202 | the kept elements have pairwise distinct keys |
| Dedupe.UniqBySubset | src/App.tsx:202 | every kept element comes from the input |
| Dedupe.UniqByOfDistinct | src/App.tsx:202 | a list whose keys are already distinct comes back unchanged |
| Pairs.IsValid | src/App.tsx:217 | no contract of its own: the truthiness test `pair.tango && pair.reading`; `Compiler.ValidPairsCount` and `Compiler.AllValid` state it |
| Compiler.ValidPairs | src/App.tsx:217 | the filter returns no more pairs than it receives |
| Compiler.ValidPairsCount | src/App.tsx:217 | the filter keeps each complete pair as many times as it occurs and drops every pair with an empty word or reading |
| Compiler.AllValid | src/App.tsx:217 | every pair that passes the filter has a non-empty word and reading |
| Compiler.ValidPairsOfValid | src/App.tsx:217 | a list of complete pairs passes the filter unchanged |
| Compiler.ValidPairsAppend | src/App.tsx:217 | the filter works pair by pair: filtering a concatenation concatenates the filtered parts |
| Compiler.InsertByLength | src/App.tsx:220 | inserting into the sorted list adds exactly the one pair |
| Compiler.InsertKeepsSorted | src/App.tsx:220 | inserting a pair after the longer-or-equal words keeps the list in non-increasing length |
| Compiler.InsertBounded | src/App.tsx:220 | inserting a word no longer than a bound into words no longer than it keeps every word within the bound |
| Compiler.SortByLength | src/App.tsx:220 | the sort is a permutation of its input |
| Compiler.SortByLengthIsSorted | src/App.tsx:220 | the sorted list is in non-increasing `tango.length` |
| Compiler.InsertOfLength | src/App.tsx:220 | inserting a pair does not reorder the pairs of any one length |
| Compiler.SortByLengthIsStable | src/App.tsx:220 | for every length, the pairs of that length keep their relative order (the comparator returns 0 and the sort is stable) |
| Compiler.Expand | src/App.tsx:225 | no contract of its own: the `$` patterns of a replacement string; `Compiler.ExpandLiteral`, `Compiler.ExpandAppend` and `CompilerExamples.ExpandMatchedWord` state it |
| Compiler.Substitution | src/App.tsx:225 | no contract of its own: what `$$`, `$&`, `` $` `` and `$'` stand for; `CompilerExamples.ExpandMatchedWord` and `CompilerExamples.DollarAmpersandInReading` state it |
| Compiler.ExpandLiteral | src/App.tsx:225 | a replacement string without `$` is inserted as it is |
| Compiler.ExpandAppend | src/App.tsx:225 | a replacement string that does not end in `$` expands piece by piece |
| Compiler.ReplaceFrom | src/App.tsx:223-225 | no contract of its own: the left-to-right scan of the global replace from a position; `Compiler.ReplaceFromSkip`, `Compiler.ReplaceFromAbsent` and `Compiler.ReplaceFromIsSplitJoin` state it |
| Compiler.ReplaceAll | src/App.tsx:223-225 | no contract of its own: `text.replace(new RegExp(_.escapeRegExp(word), 'g'), template)`; `Compiler.ReplaceAllIsSplitJoin` and `Compiler.ReplaceAllAbsent` state it |
| Compiler.ReplaceFromSkip | src/App.tsx:223-225 | text without the first character of the word is copied unchanged by the global replace |
| Compiler.ReplaceFromAbsent | src/App.tsx:223-225 | from any position, text in which the word does not occur is copied unchanged |
| Compiler.ReplaceAllAbsent | src/App.tsx:223-225 | a text in which the word does not occur is left unchanged |
| Compiler.ReplaceFromIsSplitJoin | src/App.tsx:223-225 | from any position, the global replace with a `$`-free fragment equals split on the word, then join with the fragment |
| Compiler.ReplaceAllIsSplitJoin | src/App.tsx:223-225 | the escaped global regex replaces every non-overlapping left-to-right occurrence of the word: it equals `text.split(word).join(fragment)` for a `$`-free fragment |
| Compiler.RubyTag | src/App.tsx:224 | the fragment starts with `<ruby data-absolute="true">` exactly when the pair is absolute, and has no `$` when word and reading have none |
| Compiler.Wrap | src/App.tsx:229 | no contract of its own: the two-segment `finalText`; `Compiler.WrapSegments` states it |
| Compiler.WrapSegments | src/App.tsx:229 | the wrapper opens with the hidden span and ends with the close tag, the translatable span, the source and the close tag |
| Compiler.ApplicationOrder | src/App.tsx:217-220 | every pair that the loop applies is complete |
| Compiler.Compile | src/App.tsx:213-232 | the result opens with the hidden, non-translatable span and ends with the translatable span holding the untouched source |
| Compiler.ProcessText | src/App.tsx:213-232 | the `forEach` loop over the ordered pairs yields `Compile(source, pairs)` |
| Compiler.ApplicationOrderSpec | src/App.tsx:217-222 | the applied pairs are a permutation of the complete pairs, in non-increasing length, with equal lengths in store order |
| Compiler.InvalidPairIsIgnored | src/App.tsx:217 | inserting a pair with an empty word or reading anywhere in the list does not change the result |
| Compiler.NoValidPairs | src/App.tsx:214-229 | with no complete pair, both segments are the source |
| Compiler.ApplyAllEmpty | src/App.tsx:222-226 | replacing in the empty text gives the empty text |
| Compiler.EmptySource | src/App.tsx:214-229 | an empty source gives two empty segments, whatever the pairs |
| Compiler.ApplyAllAbsent | src/App.tsx:222-226 | when no word occurs in the text, the processed segment is the text |
| Compiler.Annotate | src/App.tsx:223-225 | no contract of its own: one step of the `forEach`, `processedText.replace(regex, rubyTag)`; `Compiler.AnnotateIsSplitJoin`, `CompilerExamples.AnnotateWhole` and `CompilerExamples.AnnotateTokyo` state it |
| Compiler.ApplyAll | src/App.tsx:222-226 | no contract of its own: the `forEach` over the ordered pairs; `Compiler.ApplyAllEmpty`, `Compiler.ApplyAllAbsent`, `CompilerExamples.ApplyTwo` and `Compiler.ProcessText` state it |
| Compiler.AnnotateIsSplitJoin | src/App.tsx:223-225 | one step of the loop, for a pair without `$`, is split on the word and join with the ruby fragment |
| CompilerExamples.SingleWord | src/App.tsx:213-232 | 東京 with 東京:とうきょう gives `<ruby>東京<rt>とうきょう</rt></ruby>` next to the plain 東京 |
| CompilerExamples.TwoPairsOrder | src/App.tsx:220 | with 京 before 東京 in the store, 東京 is applied first |
| CompilerExamples.SortTwo | src/App.tsx:220 | two pairs come out longer word first, and in store order when their words are equally long |
| CompilerExamples.TwoPairsOrderKept | src/App.tsx:220 | with 東京 before 京 in the store, the order is kept |
| CompilerExamples.AnnotateTokyo | src/App.tsx:225 | replacing 東京 in 東京タワー gives its fragment followed by タワー |
| CompilerExamples.AnnotateKyo | src/App.tsx:225 | replacing 京 in the 東京 fragment rewrites the 京 inside it |
| CompilerExamples.ApplyTwo | src/App.tsx:222-226 | two pairs are applied one after the other, each to the text the other left |
| CompilerExamples.ShorterWordInsideLongerFragment | src/App.tsx:222-226 | 東京タワー with 京 and 東京, in either store order, gives nested ruby: the 京 inside the 東京 fragment is annotated again |
| CompilerExamples.AnnotateWhole | src/App.tsx:225 | a text that is exactly the word becomes the fragment |
| CompilerExamples.SinglePair | src/App.tsx:213-232 | a source that is exactly the word of a single complete `$`-free pair gives that pair's fragment in the first segment and the source in the second |
| CompilerExamples.EmptyWordSkipped | src/App.tsx:217 | 山 with the pairs (empty word, あ) and 山:やま gives only `<ruby>山<rt>やま</rt></ruby>` |
| CompilerExamples.AnnotateWholeExpanded | src/App.tsx:225 | a text that is exactly the word becomes the fragment with its `$` patterns expanded |
| CompilerExamples.ExpandMatchedWord | src/App.tsx:225 | in a replacement string, `$&` stands for the matched word |
| CompilerExamples.DollarAmpersandInReading | src/App.tsx:225 | a reading `$&` shows the matched word, not the two characters |
| Parse.RunLength | src/App.tsx:197 | the run from a position lies in the text, all its characters are in the class, and the next character is not |
| Parse.RunLengthCovers | src/App.tsx:197 | every stretch of class characters from a position lies inside the run from there |
| Parse.RunLengthStops | src/App.tsx:197 | the run stops at the latest at the first character outside the class |
| Parse.RunLengthExact | src/App.tsx:197 | a stretch that cannot be extended is the run |
| Parse.MatchAt | src/App.tsx:197 | a reported match at a position is a match of `([word]+):([hiragana]+)` there, with the reading extending as far as it can |
| Parse.MatchAtComplete | src/App.tsx:197 | whenever the pattern can match at a position, a match is reported there with the same word and the longest reading |
| Parse.MatchSlices | src/App.tsx:197 | a match at a position is the word, a colon and the reading, in this order, inside the line |
| Parse.MatchRuns | src/App.tsx:197 | a match's word is the whole word run at its position, and its reading lies inside the hiragana run after the colon |
| Parse.FirstMatchFrom | src/App.tsx:197 | the reported match starts at the first position where the pattern matches, and none means no position matches |
| Parse.FirstMatch | src/App.tsx:197 | no contract of its own: `line.match(regex)` without `g`; `Parse.FirstMatchIsLeftmost` and `Parse.FirstMatchWordIsMaximal` state it |
| Parse.FirstMatchIsLeftmost | src/App.tsx:197 | `line.match` reports a match of the pattern, with the whole hiragana run after the colon as its reading, and none starts further left; `null` means the pattern matches nowhere |
| Parse.MatchesExtendLeft | src/App.tsx:197 | a word character just before a match gives a match one position further left, with that character added to the word |
| Parse.FirstMatchWordIsMaximal | src/App.tsx:197 | the reported word is not preceded by a word character |
| Parse.LinePair | src/App.tsx:197-199 | a line yields a pair exactly when the pattern `([word]+):([hiragana]+)` matches somewhere in it; the pair's word and reading are the groups of a match with no match further left, the reading is the whole hiragana run after the colon, and `isAbsolute` is false |
| Parse.Lines | src/App.tsx:196 | no contract of its own: `text.split('\n')`, which is `Text.SplitOn`; `Text.JoinSplit` and `Text.SplitPiecesAreFree` state it |
| Parse.PairsOf | src/App.tsx:195-199 | at most one pair per line, each with a non-empty kanji/kana word, a non-empty hiragana reading and `isAbsolute` false |
| Parse.PairsOfAppend | src/App.tsx:195-199 | lines are parsed independently: two blocks of lines give the pairs of each, in order |
| Parse.PairsOfFromLines | src/App.tsx:195-199 | a pair is parsed exactly when some line yields it |
| Parse.ParseResponse | src/App.tsx:195-202 | every parsed pair is complete, not absolute, a kanji/kana word and a hiragana reading |
| Parse.ParseResponseSpec | src/App.tsx:195-202 | the parsed words are pairwise distinct, each kept pair is the first with its word in order of first occurrence, and no word is lost |
| Parse.ParsedPairsHaveNoDollar | src/App.tsx:197 | a parsed word or reading has no `$`, so its fragment is inserted literally |
| Parse.FormatLines | src/App.tsx:189 | one `word:reading` line per pair |
| Parse.LinePairOfFormatLine | src/App.tsx:197-199 | a line `word:reading` parses back to its pair |
| Parse.PairsOfFormatLines | src/App.tsx:195-199 | lines in the requested format parse back to their pairs |
| Parse.FormatLineHasNoNewline | src/App.tsx:196 | a formatted line holds no line break |
| Parse.ParseFormattedResponse | src/App.tsx:195-202 | an answer in the requested format, with distinct words, parses back to exactly its pairs, in order |
| Parse.HiraganaRunsFrom | src/App.tsx:157 | every match of `/[぀-ゟ]+/g` is a non-empty run of hiragana |
| Parse.HiraganaRuns | src/App.tsx:157 | no contract of its own: the matches of `/[\u3040-\u309F]+/g`, or none; `Parse.HiraganaRunsFrom`, `Parse.HiraganaRunsAreMaximal`, `Parse.MaximalRunsAreFound` and `Parse.HiraganaRunsInTextOrder` state it |
| Parse.HiraganaRunsAreMaximal | src/App.tsx:157 | every match is a maximal hiragana run of the text |
| Parse.MaximalRunsAreFound | src/App.tsx:157 | every maximal hiragana run of the text is a match |
| Parse.Suggestions | src/App.tsx:157-160 | every suggestion is a non-empty hiragana string |
| Parse.SuggestionsSpec | src/App.tsx:157-160 | the suggestions are exactly the maximal hiragana runs of the answer, each once, in the order in which the scan first finds them |
| Parse.RunStartsIncrease | src/App.tsx:157 | the global scan finds its matches further right each time |
| Parse.HiraganaRunsInTextOrder | src/App.tsx:157 | the k-th match of the global scan is the maximal hiragana run at the k-th start, so the matches are the runs from left to right |
| Store.SetField | src/App.tsx:122-128 | a value of the right type replaces only the named field; one of the wrong type changes nothing |
| Store.SetFieldRestores | src/App.tsx:122-128 | writing a field's previous content back restores the pair |
| Store.RemoveAt | src/App.tsx:138-141 | `splice(index, 1)` removes exactly the pair at the index and keeps the others in order; an index past the end removes nothing |
| Store.RemoveAddedPair | src/App.tsx:99 | removing the pair that "add" appended gives back the list |
| Store.AddedPairIsIgnored | src/App.tsx:99 | the appended empty pair does not change the compiled result |
| Store.RemoveInvalidIsIgnored | src/App.tsx:138-141 | removing an incomplete pair does not change the compiled result |
| Store.ParsedPairsAreAllApplied | src/App.tsx:204-205 | after an analysis, the loop applies every parsed pair |
| Store.RubyEditor.constructor | src/App.tsx:20-25 | the state starts with no text, one empty pair, no suggestions and no active pair |
| Store.RubyEditor.SetSourceText | src/App.tsx:43-45 | a new source text recolours the preview, from which the text can be recovered; nothing else changes |
| Store.RubyEditor.AddPair | src/App.tsx:98-100 | one empty pair is appended; nothing else changes |
| Store.RubyEditor.UpdatePair | src/App.tsx:122-136 | only the named field of the pair at the index changes; an index past the end with a value of the right type throws and changes nothing; a non-empty word makes the pair active and asks for its readings |
| Store.RubyEditor.RemovePair | src/App.tsx:138-142 | the pair at the index is removed and nothing else changes |
| Store.RubyEditor.ShowSuggestions | src/App.tsx:157-160 | the answer's distinct hiragana runs become the suggestions; the pairs do not change |
| Store.RubyEditor.SuggestionsFailed | src/App.tsx:161-164 | a failed reading request leaves no suggestions and does not touch the pairs |
| Store.RubyEditor.SelectSuggestion | src/App.tsx:167-174 | the reading of the active pair is set and the list closes; with no active pair nothing changes; an active index past the end throws and changes nothing |
| Store.RubyEditor.AnalyzeFullText | src/App.tsx:182-211 | an empty source or a failed request changes nothing; otherwise the parsed pairs replace the list unless there are none |
| Store.RubyEditor.Process | src/App.tsx:213-232 | the result text becomes `Compile(source, pairs)`; nothing else changes |

## Left out

- React wiring: effects, rendering, JSX, `dangerouslySetInnerHTML`, the language toggle, and the focus call in `selectSuggestion`. These are user-interface code, not logic.
- The outside-click listener that closes the suggestion list. It is user-interface code.
- The Gemini client, the prompts and the `await` calls are left out because they are network I/O. The answer text, or its failure, is a parameter of `ShowSuggestions`, `SuggestionsFailed` and `AnalyzeFullText`.
- `alert` and `console.error` calls, the clipboard and timers are left out because they are I/O. `AnalyzeFullText` returns whether it would alert.
- The preview split `resultText.split('</span>')`: rendering code. It yields the two segments only when the source contains no `</span>`.
- Store.RubyEditor.UpdatePair: indices are natural numbers, because the user interface passes only list positions. `updatePair` and `removePair` in JavaScript would also accept negative numbers.
- Store.RubyEditor.RemovePair: same natural-number restriction. Also, `splice(-1, 1)` would count from the end.
- Store.RubyEditor.UpdatePair: the JavaScript copy is shallow, so the write also changes the pair object that the previous list shares. No other reference to the old list survives the state update, so the model writes a fresh list value.
- Store.RubyEditor.SelectSuggestion: the JavaScript copy is shallow, so writing the reading also changes the pair object that the previous list shares. No other reference to the old list survives the state update, so the model writes a fresh list value.
- Lone surrogates: `for…of` in `colorizeText` yields an unpaired UTF-16 surrogate as a character of its own. A Dafny `char` is a Unicode scalar value and cannot hold one, so source text with unpaired surrogates is not modelled.
- Replacement patterns `$1`–`$99` and `$<name>` are copied as they are. JavaScript does the same when the pattern has no groups, and an escaped word never has any.
- Asynchronous ordering is not modelled. An answer that arrives late is applied when its method is called.
