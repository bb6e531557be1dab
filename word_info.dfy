/**
 * The word-info handler of index.mjs:4-344 from the parsed dictionary
 * response on: input check, record filter, resolution cascade, headword
 * fallback, suffix stitching, naive pronunciation fallback, the count check,
 * the rarity check and the parse set. The frequency looked up from Datamuse
 * is a parameter.
 */
module WordInfoHandler {
  import opened Wrappers
  import opened Strings
  import opened Dictionary
  import opened EvenSplitting
  import opened RecordFilter
  import opened PhonemeOverride
  import opened SyllableResolver
  import opened SuffixStitching
  import opened ParseSet

  /** The error responses of the modelled part of the handler. */
  datatype Failure =
    | MissingWord                 // index.mjs:14-17, status 400
    | Rejected(reason: Rejection) // index.mjs:43-78, status 400
    | NoCommonEntry               // index.mjs:165-167, status 400
    | MalformedPronunciation      // index.mjs:250 reads `p.mw` of a pronunciation without one: status 500
    | Unresolvable                // index.mjs:276-278, status 400
    | TooRare                     // index.mjs:300-302, status 400

  /** The body of a successful response (index.mjs:320-328). */
  datatype WordInfo = WordInfo(
    word: string,
    frequency: real,
    syllables: nat,
    syllableList: seq<string>,
    baseWordUsed: bool,
    syllableParses: seq<Parse>)

  /** The record the naive fallback reads (index.mjs:247): a non-empty headword and a non-empty first `mw`. */
  predicate NaiveCandidate(item: Item) {
    var hw := RawHeadword(item);
    var mw := FirstMw(HeadwordPrs(item));
    hw.Some? && hw.value != "" && mw.Some? && mw.value != ""
  }

  function NaiveIndex(items: seq<Item>): (k: Option<nat>)
    ensures k.Some? ==> k.value < |items| && NaiveCandidate(items[k.value])
    ensures k.Some? ==> forall j :: 0 <= j < k.value ==> !NaiveCandidate(items[j])
    ensures k.None? ==> forall j :: 0 <= j < |items| ==> !NaiveCandidate(items[j])
  {
    if items == [] then None
    else if NaiveCandidate(items[0]) then Some(0)
    else
      var k := NaiveIndex(items[1..]);
      if k.Some? then Some(k.value + 1) else None
  }

  /** Some pronunciation of the list has no `mw`. */
  predicate SomeMwMissing(prs: seq<Pronunciation>) {
    exists i :: 0 <= i < |prs| && prs[i].mw.None?
  }

  /**
   * The naive fallback of index.mjs:247-274. It reads every `mw` of the
   * chosen record before anything else, and rebuilds when the record's
   * marker-free headword is the word, the flag is clear and the count differs
   * from the pronunciation's in either direction. It never sets the flag.
   */
  function NaiveFallback(word: string, items: seq<Item>, list: seq<string>, used: bool): Result<seq<string>, Failure> {
    var k := NaiveIndex(items);
    if k.None? then Success(list)
    else
      var prs := HeadwordPrs(items[k.value]).value;
      if SomeMwMissing(prs) then Failure(MalformedPronunciation)
      else
        Success(Recut(word, Normalize(RawHeadword(items[k.value]).value), MaxSyllables(prs), list, used))
  }

  /** The rebuild condition of index.mjs:251-273 for the chosen record's marker-free headword `form`. */
  function Recut(word: string, form: string, phonemes: nat, list: seq<string>, used: bool): seq<string> {
    if form == word && !used && |list| != phonemes then EvenSplit(form, phonemes) else list
  }

  /** A rebuild needs the flag clear and re-cuts the word into exactly `phonemes` pieces. */
  lemma RecutShape(word: string, form: string, phonemes: nat, list: seq<string>, used: bool)
    requires phonemes >= 1
    ensures var r := Recut(word, form, phonemes, list, used);
      r != list ==> !used && |r| == phonemes && Concat(r) == word
  {
    if form == word && !used && |list| != phonemes {
      EvenSplitCount(form, phonemes);
      EvenSplitConcat(form, phonemes);
    }
  }

  /**
   * A naive rebuild happens only with the flag clear and re-cuts the word into
   * the pronunciation's syllable count, which may be fewer pieces than before.
   */
  lemma NaiveRebuild(word: string, items: seq<Item>, list: seq<string>, used: bool)
    ensures var r := NaiveFallback(word, items, list, used);
      r.Success? && r.value != list ==>
        && !used
        && NaiveIndex(items).Some?
        && |r.value| == MaxSyllables(HeadwordPrs(items[NaiveIndex(items).value]).value) >= 1
        && Concat(r.value) == word
    ensures used ==> NaiveFallback(word, items, list, used) in {Success(list), Failure(MalformedPronunciation)}
  {
    var k := NaiveIndex(items);
    if k.Some? {
      var prs := HeadwordPrs(items[k.value]).value;
      assert prs != [];
      RecutShape(word, Normalize(RawHeadword(items[k.value]).value), MaxSyllables(prs), list, used);
    }
  }

  /** The record whose pronunciations feed the parse set (index.mjs:305). */
  predicate ParseSourceCandidate(item: Item) {
    var hw := RawHeadword(item);
    var prs := HeadwordPrs(item);
    hw.Some? && hw.value != "" && prs.Some? && |prs.value| > 0
  }

  /** The pronunciations of the first record with a headword and a non-empty list of them, or none (index.mjs:305-306). */
  function ParseSource(items: seq<Item>): (prs: seq<Pronunciation>)
    ensures prs != [] ==> exists j :: 0 <= j < |items| && ParseSourceCandidate(items[j]) && HeadwordPrs(items[j]) == Some(prs)
  {
    if items == [] then []
    else if ParseSourceCandidate(items[0]) then HeadwordPrs(items[0]).value
    else
      var prs := ParseSource(items[1..]);
      assert forall j :: 0 <= j < |items| - 1 ==> items[1..][j] == items[j + 1];
      prs
  }

  /** Both suffix passes, as written, with the syllables they push. */
  function Suffixes(word: string, list: seq<string>): (r: (seq<string>, nat))
    requires |list| > 0
    ensures |r.0| == |list| + r.1
  {
    var (plural, p) := StitchPlural(list, word);
    var (past, q) := PastTenseAsWritten(plural, word);
    (past, p + q)
  }

  /** The syllable state after the cascade and the headword fallback, or the fallback's refusal. */
  function Resolved(word: string, items: seq<Item>): Result<Cascade, Failure> {
    var c := CascadeOf(word, items, false);
    if c.list != [] then Success(c)
    else
      match HeadwordFallback(items)
      case NoFallback => Success(c)
      case UncasedHeadword => Failure(NoCommonEntry)
      case FromHeadword(syllables, source) =>
        var (r, u) := Override(word, source, syllables, c.used);
        Success(Cascade(r, u, true))
  }

  lemma ResolvedBaseHasList(word: string, items: seq<Item>)
    ensures var r := Resolved(word, items); r.Success? && r.value.baseWordUsed ==> r.value.list != []
  {
    BaseWordHasList(word, items, false);
    var c := CascadeOf(word, items, false);
    var f := HeadwordFallback(items);
    if c.list == [] && f.FromHeadword? {
      OverrideShape(word, f.source, f.syllables, c.used);
    }
  }

  /**
   * The checks after the naive fallback (index.mjs:276-328): an empty list is
   * unresolvable, an unknown frequency too rare, and otherwise the response
   * carries the list and the parse set merged with it.
   */
  function Reply(word: string, items: seq<Item>, frequency: real, list: seq<string>, baseWordUsed: bool): Result<WordInfo, Failure> {
    if |list| == 0 then Failure(Unresolvable)
    else if frequency == 0.0 then Failure(TooRare)
    else
      var parses := MergeAuthoritative(Extract(word, Some(ParseSource(items))), list);
      Success(WordInfo(word, frequency, |list|, list, baseWordUsed, parses))
  }

  /** Everything after resolution: the suffix passes on a base-form match, the naive fallback, then `Reply`. */
  function Respond(word: string, items: seq<Item>, frequency: real, c: Cascade): Result<WordInfo, Failure>
    requires c.baseWordUsed ==> c.list != []
  {
    var stitched := if c.baseWordUsed then Suffixes(word, c.list).0 else c.list;
    var naive := NaiveFallback(word, items, stitched, c.used);
    if naive.Failure? then Failure(naive.error)
    else Reply(word, items, frequency, naive.value, c.baseWordUsed)
  }

  /** The whole request, from the query string and the dictionary response to the response. */
  function HandleSpec(query: Option<string>, data: MwResponse, frequency: real): Result<WordInfo, Failure> {
    if query.None? || query.value == "" then Failure(MissingWord)
    else
      var word := Lower(query.value);
      var verdict := FilterRecords(data);
      if verdict.Some? then Failure(Rejected(verdict.value))
      else
        var items := data.items;
        var resolved := Resolved(word, items);
        if resolved.Failure? then Failure(resolved.error)
        else
          ResolvedBaseHasList(word, items);
          Respond(word, items, frequency, resolved.value)
  }

  /**
   * A successful reply has a known frequency, counts as many syllables as its
   * list holds (at least one), and carries a parse set without repeated keys
   * that holds the list's own key, every parse counting its own pieces.
   */
  lemma ReplySuccess(word: string, items: seq<Item>, frequency: real, list: seq<string>, baseWordUsed: bool)
    requires Reply(word, items, frequency, list, baseWordUsed).Success?
    ensures var info := Reply(word, items, frequency, list, baseWordUsed).value;
      && info.word == word
      && frequency != 0.0
      && info.syllables == |info.syllableList| >= 1
      && DistinctKeys(info.syllableParses)
      && (exists i :: 0 <= i < |info.syllableParses| && Key(info.syllableParses[i]) == JoinWith(info.syllableList, "-"))
      && forall i :: 0 <= i < |info.syllableParses| ==>
        info.syllableParses[i].count == |info.syllableParses[i].syllables| >= 1
  {
    var info := Reply(word, items, frequency, list, baseWordUsed).value;
    var prs := ParseSource(items);
    var extracted := Extract(word, Some(prs));
    ExtractParsesSpellWord(word, Some(prs));
    ExtractDistinct(word, prs);
    assert info.syllableParses == MergeAuthoritative(extracted, list);
    forall i | 0 <= i < |info.syllableParses|
      ensures info.syllableParses[i].count == |info.syllableParses[i].syllables| >= 1
    {
      var p := info.syllableParses[i];
      assert p in info.syllableParses;
      if p !in extracted {
        assert p == Parse(|list|, list);
      } else {
        var j :| 0 <= j < |extracted| && extracted[j] == p;
      }
    }
  }

  /** A successful response is, besides, for the lower-cased query and passed the record filter. */
  lemma HandleSuccess(query: Option<string>, data: MwResponse, frequency: real)
    requires HandleSpec(query, data, frequency).Success?
    ensures var info := HandleSpec(query, data, frequency).value;
      && query.Some? && info.word == Lower(query.value) && info.word != ""
      && FilterRecords(data) == None
      && frequency != 0.0
      && info.syllables == |info.syllableList| >= 1
      && DistinctKeys(info.syllableParses)
      && (exists i :: 0 <= i < |info.syllableParses| && Key(info.syllableParses[i]) == JoinWith(info.syllableList, "-"))
      && forall i :: 0 <= i < |info.syllableParses| ==>
        info.syllableParses[i].count == |info.syllableParses[i].syllables| >= 1
  {
    var word := Lower(query.value);
    var items := data.items;
    ResolvedBaseHasList(word, items);
    var c := Resolved(word, items).value;
    var stitched := if c.baseWordUsed then Suffixes(word, c.list).0 else c.list;
    var naive := NaiveFallback(word, items, stitched, c.used);
    ReplySuccess(word, items, frequency, naive.value, c.baseWordUsed);
  }

  /** After resolution a non-empty list stays non-empty, so the reply is never "unresolvable". */
  lemma RespondKeepsList(word: string, items: seq<Item>, frequency: real, c: Cascade)
    requires c.list != []
    ensures Respond(word, items, frequency, c) != Failure(Unresolvable)
  {
    var stitched := if c.baseWordUsed then Suffixes(word, c.list).0 else c.list;
    NaiveRebuild(word, items, stitched, c.used);
  }

  /** When some record is a fallback candidate, a successful resolution has a non-empty list. */
  lemma ResolvedHasList(word: string, items: seq<Item>)
    requires exists j :: 0 <= j < |items| && FallbackCandidate(items[j])
    ensures Resolved(word, items).Success? ==> Resolved(word, items).value.list != []
  {
    var c := CascadeOf(word, items, false);
    var f := HeadwordFallback(items);
    if c.list == [] && f.FromHeadword? {
      OverrideShape(word, f.source, f.syllables, c.used);
    }
  }

  /**
   * The reply "we couldn't figure out the syllables" (index.mjs:276-278) is
   * never given: a response that passes the record filter holds a record the
   * headword fallback can use, and no later stage empties the list.
   */
  lemma NeverUnresolvable(query: Option<string>, data: MwResponse, frequency: real)
    ensures HandleSpec(query, data, frequency) != Failure(Unresolvable)
  {
    if query.Some? && query.value != "" && FilterRecords(data) == None {
      var word := Lower(query.value);
      var items := data.items;
      AcceptedHasCommonHeadword(data);
      var i :| 0 <= i < |items| && CommonHeadword(items[i]);
      assert FallbackCandidate(items[i]);
      ResolvedHasList(word, items);
      var r := Resolved(word, items);
      if r.Success? {
        ResolvedBaseHasList(word, items);
        RespondKeepsList(word, items, frequency, r.value);
      }
    }
  }

  /**
   * The cascade of index.mjs:80-153 on the request's state, then, on an empty
   * list, the headword fallback of index.mjs:155-175.
   */
  method ResolveSyllables(word: string, items: seq<Item>, state: RequestState) returns (r: Result<Cascade, Failure>)
    requires state.Valid() && !state.syllableOverrideUsed
    modifies state
    ensures state.Valid()
    ensures r == Resolved(word, items)
    ensures r.Success? ==> r.value.used == state.syllableOverrideUsed
  {
    var syllableList, baseWordUsed := ResolveEntries(word, items, state);
    if syllableList == [] {
      var fallback := HeadwordFallback(items);
      if fallback.UncasedHeadword? {
        return Failure(NoCommonEntry);
      }
      if fallback.FromHeadword? {
        syllableList := state.OverrideWithPhonemeMismatch(word, fallback.source, fallback.syllables);
        baseWordUsed := true;
      }
    }
    return Success(Cascade(syllableList, state.syllableOverrideUsed, baseWordUsed));
  }

  /** The plural pass of index.mjs:178-208, then the past-tense pass of index.mjs:210-243, keeping the count beside the list. */
  method StitchSuffixes(word: string, list: seq<string>, count: nat) returns (stitched: seq<string>, newCount: nat)
    requires |list| > 0 && count == |list|
    ensures stitched == Suffixes(word, list).0
    ensures newCount == |stitched| && |list| <= |stitched| <= |list| + 2
    ensures var plural := StitchPlural(list, word).0;
      stitched == plural || Joined(stitched) == word || (IedApplies(plural, word) && EndsWith(Joined(plural), "y"))
  {
    var plural, pushed := StitchPlural(list, word).0, StitchPlural(list, word).1;
    var past, pushedPast := StitchPastTense(plural, word);
    stitched, newCount := past, count + pushed + pushedPast;
  }

  /**
   * The handler body: a fresh request state, the cascade, the fallbacks and the
   * suffix passes, keeping `syllableCount` beside `syllableList` as the source
   * does.
   */
  method Handle(query: Option<string>, data: MwResponse, frequency: real) returns (out: Result<WordInfo, Failure>)
    ensures out == HandleSpec(query, data, frequency)
    ensures out.Success? ==> out.value.syllables == |out.value.syllableList|
  {
    if query.None? || query.value == "" {
      return Failure(MissingWord);
    }
    var word := Lower(query.value);
    var verdict := FilterRecords(data);
    if verdict.Some? {
      return Failure(Rejected(verdict.value));
    }
    var items := data.items;
    var state := new RequestState();
    var resolved := ResolveSyllables(word, items, state);
    if resolved.Failure? {
      return Failure(resolved.error);
    }
    var syllableList, baseWordUsed := resolved.value.list, resolved.value.baseWordUsed;
    var syllableCount := |syllableList|;
    ResolvedBaseHasList(word, items);
    if baseWordUsed {
      syllableList, syllableCount := StitchSuffixes(word, syllableList, syllableCount);
    }

    var k := NaiveIndex(items);
    if k.Some? {
      var prs := HeadwordPrs(items[k.value]).value;
      if SomeMwMissing(prs) {
        return Failure(MalformedPronunciation);
      }
      var form := Normalize(RawHeadword(items[k.value]).value);
      var phonemeSyllables := MaxSyllables(prs);
      if form == word && !state.syllableOverrideUsed && syllableCount != phonemeSyllables {
        syllableList := SplitEvenly(form, phonemeSyllables);
        syllableCount := |syllableList|;
      }
    }

    if syllableCount == 0 {
      return Failure(Unresolvable);
    }
    if frequency == 0.0 {
      return Failure(TooRare);
    }
    var parses := ExtractSyllableParses(word, Some(ParseSource(items)));
    parses := MergeAuthoritative(parses, syllableList);
    return Success(WordInfo(word, frequency, syllableCount, syllableList, baseWordUsed, parses));
  }
}
