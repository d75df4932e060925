/**
  The editor state of the ruby tool and the handlers that change it: the
  source text with its kanji preview, the list of pairs, the pair whose
  reading suggestions are open, the suggestions, and the compiled result.
  Answers of the language model arrive as method parameters.
*/
module Store {
  import opened Wrappers
  import opened Pairs
  import opened Highlighter
  import opened Compiler
  import opened Parse

  /** The three editable fields of a pair (`keyof RubyPair`). */
  datatype Field = TangoField | ReadingField | AbsoluteField

  /** What an input hands to `updatePair`: a string or a boolean. */
  datatype FieldValue = Str(s: string) | Flag(b: bool)

  /** The type check of `updatePair`: booleans go to `isAbsolute`, strings to the two text fields. */
  predicate Accepts(field: Field, value: FieldValue)
  {
    if field == AbsoluteField then value.Flag? else value.Str?
  }

  /** The pair after `newPairs[index][field] = value`; a value of the wrong type is not written. */
  function SetField(p: RubyPair, field: Field, value: FieldValue): (q: RubyPair)
    ensures !Accepts(field, value) ==> q == p
    ensures Accepts(field, value) ==>
      && (q.tango == if field == TangoField then value.s else p.tango)
      && (q.reading == if field == ReadingField then value.s else p.reading)
      && (q.isAbsolute == if field == AbsoluteField then value.b else p.isAbsolute)
  {
    if !Accepts(field, value) then p
    else match field
      case TangoField => p.(tango := value.s)
      case ReadingField => p.(reading := value.s)
      case AbsoluteField => p.(isAbsolute := value.b)
  }

  /** The field's current content, as the input shows it. */
  function FieldOf(p: RubyPair, field: Field): FieldValue
  {
    match field
    case TangoField => Str(p.tango)
    case ReadingField => Str(p.reading)
    case AbsoluteField => Flag(p.isAbsolute)
  }

  /** Writing a field and then writing its previous content back restores the pair. */
  lemma SetFieldRestores(p: RubyPair, field: Field, value: FieldValue)
    ensures SetField(SetField(p, field, value), field, FieldOf(p, field)) == p
  {
  }

  /** `newPairs.splice(index, 1)`: the pair at `index` goes, an index past the end removes nothing. */
  function RemoveAt(ps: seq<RubyPair>, index: nat): (r: seq<RubyPair>)
    ensures index < |ps| ==> |r| == |ps| - 1 && multiset(r) + multiset{ps[index]} == multiset(ps)
    ensures index >= |ps| ==> r == ps
    ensures forall k | 0 <= k < |r| :: r[k] == if k < index then ps[k] else ps[k + 1]
  {
    if index < |ps| then
      var r := ps[..index] + ps[index + 1..];
      assert ps == ps[..index] + [ps[index]] + ps[index + 1..];
      r
    else ps
  }

  /** Adding the empty pair and removing it again gives back the list. */
  lemma RemoveAddedPair(ps: seq<RubyPair>)
    ensures RemoveAt(ps + [EmptyPair], |ps|) == ps
  {
    assert (ps + [EmptyPair])[..|ps|] == ps;
  }

  /** The pair that "add" appends changes nothing in the compiled result. */
  lemma AddedPairIsIgnored(source: string, ps: seq<RubyPair>)
    ensures Compile(source, ps + [EmptyPair]) == Compile(source, ps)
  {
    assert ps[..|ps|] + [EmptyPair] + ps[|ps|..] == ps + [EmptyPair];
    InvalidPairIsIgnored(source, ps, |ps|, EmptyPair);
  }

  /** Removing an incomplete pair changes nothing in the compiled result. */
  lemma RemoveInvalidIsIgnored(source: string, ps: seq<RubyPair>, index: nat)
    requires index < |ps| && !IsValid(ps[index])
    ensures Compile(source, RemoveAt(ps, index)) == Compile(source, ps)
  {
    var r := RemoveAt(ps, index);
    InvalidPairIsIgnored(source, r, index, ps[index]);
    assert r[..index] == ps[..index];
    assert r[index..] == ps[index + 1..];
    assert r[..index] + [ps[index]] + r[index..] == ps;
  }

  /**
    After a successful analysis every parsed pair takes part in compilation:
    the application order is a reordering of exactly the parsed pairs.
  */
  lemma ParsedPairsAreAllApplied(response: string)
    ensures multiset(ApplicationOrder(ParseResponse(response))) == multiset(ParseResponse(response))
  {
    ValidPairsOfValid(ParseResponse(response));
  }

  /** The component's state. */
  class RubyEditor {
    var sourceText: string
    var coloredText: string
    var pairs: seq<RubyPair>
    var resultText: string
    var suggestions: seq<string>
    var activeIndex: Option<nat>

    /** The kanji preview always shows the current source text. */
    predicate Valid()
      reads this
    {
      coloredText == Highlight(sourceText)
    }

    /** The initial state: no text, one empty pair, nothing compiled or suggested. */
    constructor()
      ensures Valid()
      ensures sourceText == [] && coloredText == [] && resultText == []
      ensures pairs == [EmptyPair] && suggestions == [] && activeIndex == None
    {
      sourceText, coloredText, resultText := [], [], [];
      pairs := [EmptyPair];
      suggestions := [];
      activeIndex := None;
    }

    /** Typing in the source box; the effect on `sourceText` recolours the preview. */
    method SetSourceText(text: string)
      requires Valid()
      modifies this
      ensures Valid()
      ensures sourceText == text && Unhighlight(coloredText) == text
      ensures pairs == old(pairs) && resultText == old(resultText)
      ensures suggestions == old(suggestions) && activeIndex == old(activeIndex)
    {
      sourceText := text;
      coloredText := Colorize(text);
    }

    /** `handleAddPair`: one more empty pair at the end. */
    method AddPair()
      requires Valid()
      modifies this
      ensures Valid()
      ensures pairs == old(pairs) + [EmptyPair]
      ensures sourceText == old(sourceText) && coloredText == old(coloredText)
      ensures resultText == old(resultText)
      ensures suggestions == old(suggestions) && activeIndex == old(activeIndex)
    {
      pairs := pairs + [EmptyPair];
    }

    /**
      `updatePair`. Writing a field of a pair that does not exist throws, and
      nothing changes (`ok` is false). A non-empty word makes the pair the
      active one and asks for readings of that word (`lookup`).
    */
    method UpdatePair(index: nat, field: Field, value: FieldValue)
      returns (ok: bool, lookup: Option<string>)
      requires Valid()
      modifies this
      ensures Valid()
      ensures ok <==> index < |old(pairs)| || !Accepts(field, value)
      ensures !ok ==> pairs == old(pairs) && activeIndex == old(activeIndex) && lookup == None
      ensures ok && index < |old(pairs)| ==> pairs == old(pairs)[index := SetField(old(pairs)[index], field, value)]
      ensures ok && index >= |old(pairs)| ==> pairs == old(pairs)
      ensures var asks := ok && field == TangoField && value.Str? && value.s != [];
        && (asks ==> activeIndex == Some(index) && lookup == Some(value.s))
        && (!asks ==> activeIndex == old(activeIndex) && lookup == None)
      ensures sourceText == old(sourceText) && coloredText == old(coloredText)
      ensures resultText == old(resultText) && suggestions == old(suggestions)
    {
      lookup := None;
      if Accepts(field, value) && index >= |pairs| {
        ok := false;
        return;
      }
      ok := true;
      if index < |pairs| {
        pairs := pairs[index := SetField(pairs[index], field, value)];
      }
      if field == TangoField && value.Str? && value.s != [] {
        activeIndex := Some(index);
        lookup := Some(value.s);
      }
    }

    /** `removePair`: `splice(index, 1)` on a copy. The active index is not adjusted. */
    method RemovePair(index: nat)
      requires Valid()
      modifies this
      ensures Valid()
      ensures pairs == RemoveAt(old(pairs), index)
      ensures sourceText == old(sourceText) && coloredText == old(coloredText)
      ensures resultText == old(resultText)
      ensures suggestions == old(suggestions) && activeIndex == old(activeIndex)
    {
      pairs := RemoveAt(pairs, index);
    }

    /** The answer to a reading request arrived: its distinct hiragana runs become the suggestions. */
    method ShowSuggestions(response: string)
      requires Valid()
      modifies this
      ensures Valid()
      ensures suggestions == Suggestions(response)
      ensures sourceText == old(sourceText) && coloredText == old(coloredText)
      ensures pairs == old(pairs) && resultText == old(resultText) && activeIndex == old(activeIndex)
    {
      suggestions := Suggestions(response);
    }

    /** The reading request failed: no suggestions. */
    method SuggestionsFailed()
      requires Valid()
      modifies this
      ensures Valid()
      ensures suggestions == []
      ensures sourceText == old(sourceText) && coloredText == old(coloredText)
      ensures pairs == old(pairs) && resultText == old(resultText) && activeIndex == old(activeIndex)
    {
      suggestions := [];
    }

    /**
      `selectSuggestion`: the reading goes into the active pair and the list
      closes. Without an active pair nothing happens; an active index past the
      end of the list throws and nothing changes (`ok` is false).
    */
    method SelectSuggestion(reading: string) returns (ok: bool)
      requires Valid()
      modifies this
      ensures Valid()
      ensures ok <==> old(activeIndex).None? || old(activeIndex).value < |old(pairs)|
      ensures old(activeIndex).Some? && ok ==>
        && pairs == old(pairs)[old(activeIndex).value := old(pairs)[old(activeIndex).value].(reading := reading)]
        && suggestions == [] && activeIndex == None
      ensures old(activeIndex).None? || !ok ==>
        pairs == old(pairs) && suggestions == old(suggestions) && activeIndex == old(activeIndex)
      ensures sourceText == old(sourceText) && coloredText == old(coloredText)
      ensures resultText == old(resultText)
    {
      match activeIndex
      case None =>
        ok := true;
      case Some(i) =>
        if i < |pairs| {
          pairs := pairs[i := pairs[i].(reading := reading)];
          suggestions := [];
          activeIndex := None;
          ok := true;
        } else {
          ok := false;
        }
    }

    /**
      `analyzeFullText`, given the model's answer (`None` when the request
      failed). An empty source or a failed request raises an alert and changes
      nothing; otherwise the parsed pairs replace the list, unless there are none.
    */
    method AnalyzeFullText(response: Option<string>) returns (alerted: bool)
      requires Valid()
      modifies this
      ensures Valid()
      ensures alerted <==> old(sourceText) == [] || response.None?
      ensures !alerted && ParseResponse(response.value) != [] ==> pairs == ParseResponse(response.value)
      ensures alerted || ParseResponse(response.value) == [] ==> pairs == old(pairs)
      ensures sourceText == old(sourceText) && coloredText == old(coloredText)
      ensures resultText == old(resultText)
      ensures suggestions == old(suggestions) && activeIndex == old(activeIndex)
    {
      if sourceText == [] || response.None? {
        alerted := true;
        return;
      }
      alerted := false;
      var unique := ParseResponse(response.value);
      if |unique| > 0 {
        pairs := unique;
      }
    }

    /** `processText`: compile the source with the current pairs. */
    method Process()
      requires Valid()
      modifies this
      ensures Valid()
      ensures resultText == Compile(sourceText, pairs)
      ensures sourceText == old(sourceText) && coloredText == old(coloredText)
      ensures pairs == old(pairs) && suggestions == old(suggestions) && activeIndex == old(activeIndex)
    {
      resultText := ProcessText(sourceText, pairs);
    }
  }
}
