/**
 * The resolution cascade of index.mjs:80-153 and the headword fallback of
 * index.mjs:155-175: which record supplies the syllable list, and whether the
 * word was reached through a base form (`baseWordUsed`).
 */
module SyllableResolver {
  import opened Wrappers
  import opened Strings
  import opened Dictionary
  import opened EvenSplitting
  import opened RunOnMatching
  import opened PhonemeOverride

  datatype MatchKind = HeadwordMatch | InflectionMatch | RunOnMatchKind

  /** The marker split a record offers, the pronunciation to cross-check it with, and which branch offered it. */
  datatype EntryMatch = EntryMatch(syllables: seq<string>, source: PhonemeSource, kind: MatchKind)

  /**
   * The headword branch (index.mjs:87-103): the marker-free headword is the
   * word, the raw headword is non-empty, its marker-free first character is its
   * own lower case, and it carries a `*`.
   */
  predicate HeadwordBranch(word: string, item: Item) {
    var hw := RawHeadword(item);
    && hw.Some? && hw.value != ""
    && Normalize(hw.value) == word
    && var h := RemoveChar(hw.value, '*');
    && (h == "" || LowerChar(h[0]) == h[0])
    && '*' in hw.value
  }

  /** The index of the first inflection whose marker-free, lower-cased form is the word (index.mjs:106-108). */
  function FindInflection(word: string, ins: seq<Inflection>): (k: Option<nat>)
    ensures k.Some? ==> k.value < |ins| && Normalize(ins[k.value].form) == word
    ensures k.Some? ==> forall j :: 0 <= j < k.value ==> Normalize(ins[j].form) != word
    ensures k.None? ==> forall j :: 0 <= j < |ins| ==> Normalize(ins[j].form) != word
  {
    if ins == [] then None
    else if Normalize(ins[0].form) == word then Some(0)
    else
      var k := FindInflection(word, ins[1..]);
      if k.Some? then Some(k.value + 1) else None
  }

  /**
   * The gate of the inflection branch (index.mjs:105): the word is among the
   * entry's stems, the entry has an `ins` array and the word is not the
   * entry's own marker-free headword.
   */
  predicate InflectionGate(word: string, item: Item) {
    var e := EntryOf(item);
    var hw := RawHeadword(item);
    && e.meta.Some? && e.meta.value.stems.Some? && word in e.meta.value.stems.value
    && e.ins.Some?
    && (hw.None? || Normalize(hw.value) != word)
  }

  /** The inflected form the branch uses, when it exists and carries a `*` (index.mjs:106-109). */
  function MarkedInflection(word: string, item: Item): (inf: Option<Inflection>)
    ensures inf.Some? ==> Normalize(inf.value.form) == word && '*' in inf.value.form
  {
    if !InflectionGate(word, item) then None
    else
      var ins := EntryOf(item).ins.value;
      var k := FindInflection(word, ins);
      if k.Some? && '*' in ins[k.value].form then Some(ins[k.value]) else None
  }

  /** The inflection's own first transcription when it has one, else the headword's pronunciations (index.mjs:114-116). */
  function InflectionSource(inf: Inflection, item: Item): PhonemeSource {
    var mw := FirstMw(inf.prs);
    if mw.Some? && mw.value != "" then Text(mw.value) else ListSource(HeadwordPrs(item))
  }

  /** The run-on branch (index.mjs:124-132). */
  function RunOnBranch(word: string, item: Item): Option<RunOnMatch> {
    var e := EntryOf(item);
    if e.uros.Some? then MatchPluralRunOn(word, e.uros.value) else None
  }

  /** What one pass of the loop body takes from one record, trying the three branches in order. */
  function MatchEntry(word: string, item: Item): (m: Option<EntryMatch>)
    ensures m.Some? ==> |m.value.syllables| >= 1
    ensures m.Some? && m.value.kind == HeadwordMatch ==> HeadwordBranch(word, item)
    ensures m.Some? && m.value.kind == RunOnMatchKind ==>
      !HeadwordBranch(word, item) && MarkedInflection(word, item).None? && RunOnBranch(word, item).Some?
    ensures m.None? <==>
      !HeadwordBranch(word, item) && MarkedInflection(word, item).None? && RunOnBranch(word, item).None?
    ensures HeadwordBranch(word, item) ==> m.Some? && m.value.kind == HeadwordMatch
    ensures (m.Some? && m.value.kind == InflectionMatch) <==>
      !HeadwordBranch(word, item) && MarkedInflection(word, item).Some?
    ensures m.Some? && m.value.kind == HeadwordMatch ==> m.value.syllables == Split(RawHeadword(item).value, '*')
    ensures m.Some? && m.value.kind == InflectionMatch ==>
      m.value.syllables == Split(MarkedInflection(word, item).value.form, '*')
    ensures m.Some? && m.value.kind == RunOnMatchKind ==>
      m.value.syllables == Split(RunOnBranch(word, item).value.runOn.ure, '*')
  {
    if HeadwordBranch(word, item) then
      var hw := RawHeadword(item).value;
      Some(EntryMatch(Split(hw, '*'), TextSource(FirstMw(HeadwordPrs(item))), HeadwordMatch))
    else if MarkedInflection(word, item).Some? then
      var inf := MarkedInflection(word, item).value;
      Some(EntryMatch(Split(inf.form, '*'), InflectionSource(inf, item), InflectionMatch))
    else if RunOnBranch(word, item).Some? then
      var runOn := RunOnBranch(word, item).value.runOn;
      Some(EntryMatch(Split(runOn.ure, '*'), TextSource(FirstMw(runOn.prs)), RunOnMatchKind))
    else None
  }

  /**
   * A headword or inflection match offers the pieces of a form whose
   * marker-free, lower-cased spelling is the word, so they spell the word.
   */
  lemma MatchSpellsWord(word: string, item: Item)
    requires MatchEntry(word, item).Some? && MatchEntry(word, item).value.kind != RunOnMatchKind
    ensures Lower(Concat(MatchEntry(word, item).value.syllables)) == word
  {
    var m := MatchEntry(word, item).value;
    var form := if m.kind == HeadwordMatch then RawHeadword(item).value else MarkedInflection(word, item).value.form;
    assert m.syllables == Split(form, '*');
    assert Normalize(form) == word;
    SplitConcat(form, '*');
  }

  /** The loop's variables: `syllableList`, the request flag and `baseWordUsed`. */
  datatype Cascade = Cascade(list: seq<string>, used: bool, baseWordUsed: bool)

  /** What each record of `items` offers, in order. */
  function Matches(word: string, items: seq<Item>): (ms: seq<Option<EntryMatch>>)
    ensures |ms| == |items|
    ensures forall i :: 0 <= i < |items| ==> ms[i] == MatchEntry(word, items[i])
  {
    seq(|items|, i requires 0 <= i < |items| => MatchEntry(word, items[i]))
  }

  /** Every offer carries at least one syllable, as `MatchEntry` guarantees. */
  predicate NonEmptyOffers(ms: seq<Option<EntryMatch>>) {
    forall i :: 0 <= i < |ms| && ms[i].Some? ==> |ms[i].value.syllables| >= 1
  }

  /** An offer made through a record's run-ons. */
  predicate IsRunOn(m: Option<EntryMatch>) {
    m.Some? && m.value.kind == RunOnMatchKind
  }

  /** One iteration: a matching record overwrites the list through the phoneme cross-check. */
  function Step(word: string, acc: Cascade, m: Option<EntryMatch>): Cascade {
    if m.None? then acc
    else
      var (r, u) := Override(word, m.value.source, m.value.syllables, acc.used);
      Cascade(r, u, acc.baseWordUsed || m.value.kind == RunOnMatchKind)
  }

  /** The loop body applied to the records' offers in order. */
  function Run(word: string, ms: seq<Option<EntryMatch>>, used: bool): Cascade
    decreases |ms|
  {
    if ms == [] then Cascade([], used, false)
    else Step(word, Run(word, ms[..|ms| - 1], used), ms[|ms| - 1])
  }

  /** The loop over all of `mwData`, which never leaves early. */
  function CascadeOf(word: string, items: seq<Item>, used: bool): Cascade {
    Run(word, Matches(word, items), used)
  }

  /** Some record of `items` matches. */
  predicate AnyMatch(word: string, items: seq<Item>) {
    exists i :: 0 <= i < |items| && MatchEntry(word, items[i]).Some?
  }

  /** Some record of `items` matches through its run-ons. */
  predicate AnyRunOnMatch(word: string, items: seq<Item>) {
    exists i :: 0 <= i < |items| && IsRunOn(MatchEntry(word, items[i]))
  }

  /**
   * A non-matching record changes nothing; a matching one leaves a non-empty
   * list, sets `baseWordUsed` exactly through its run-ons and never clears the
   * request flag.
   */
  lemma StepEffect(word: string, acc: Cascade, m: Option<EntryMatch>)
    ensures m.None? ==> Step(word, acc, m) == acc
    ensures m.Some? && |m.value.syllables| >= 1 ==> Step(word, acc, m).list != []
    ensures Step(word, acc, m).baseWordUsed <==> acc.baseWordUsed || IsRunOn(m)
    ensures acc.used ==> Step(word, acc, m).used
  {
    if m.Some? {
      OverrideShape(word, m.value.source, m.value.syllables, acc.used);
    }
  }

  /** One more offer is one more step. */
  lemma RunSnoc(word: string, ms: seq<Option<EntryMatch>>, used: bool, i: nat)
    requires i < |ms|
    ensures Run(word, ms[..i + 1], used) == Step(word, Run(word, ms[..i], used), ms[i])
  {
    assert ms[..i + 1][..i] == ms[..i];
  }

  /** Over the offers: the list stays empty exactly when nothing was offered. */
  lemma {:induction false} RunEmptyIff(word: string, ms: seq<Option<EntryMatch>>, used: bool)
    requires NonEmptyOffers(ms)
    ensures Run(word, ms, used).list == [] <==> forall i :: 0 <= i < |ms| ==> ms[i].None?
    decreases |ms|
  {
    if ms != [] {
      var init := ms[..|ms| - 1];
      assert forall i :: 0 <= i < |init| ==> init[i] == ms[i];
      RunEmptyIff(word, init, used);
      StepEffect(word, Run(word, init, used), ms[|ms| - 1]);
    }
  }

  /** Over the offers: `baseWordUsed` holds exactly when a run-on offer was taken. */
  lemma {:induction false} RunBaseIff(word: string, ms: seq<Option<EntryMatch>>, used: bool)
    ensures Run(word, ms, used).baseWordUsed <==> exists i :: 0 <= i < |ms| && IsRunOn(ms[i])
    decreases |ms|
  {
    if ms != [] {
      var init := ms[..|ms| - 1];
      assert forall i :: 0 <= i < |init| ==> init[i] == ms[i];
      RunBaseIff(word, init, used);
      StepEffect(word, Run(word, init, used), ms[|ms| - 1]);
    }
  }

  /** Over the offers: the last offer decides the list. */
  lemma {:induction false} RunLastMatchWins(word: string, ms: seq<Option<EntryMatch>>, used: bool, k: nat)
    requires k < |ms| && ms[k].Some?
    requires forall j :: k < j < |ms| ==> ms[j].None?
    ensures var list := Run(word, ms, used).list;
      list == ms[k].value.syllables || list == EvenSplit(word, PhonemeCount(ms[k].value.source))
    decreases |ms|
  {
    var init := ms[..|ms| - 1];
    if k < |ms| - 1 {
      assert forall j :: k < j < |init| ==> init[j] == ms[j];
      RunLastMatchWins(word, init, used, k);
      assert init[k] == ms[k];
    }
  }

  /** Over the offers: the request flag is never cleared. */
  lemma {:induction false} RunFlagMonotone(word: string, ms: seq<Option<EntryMatch>>, used: bool)
    ensures used ==> Run(word, ms, used).used
    decreases |ms|
  {
    if ms != [] {
      RunFlagMonotone(word, ms[..|ms| - 1], used);
      StepEffect(word, Run(word, ms[..|ms| - 1], used), ms[|ms| - 1]);
    }
  }

  /** The list stays empty exactly when no record matches. */
  lemma CascadeEmptyIff(word: string, items: seq<Item>, used: bool)
    ensures CascadeOf(word, items, used).list == [] <==> !AnyMatch(word, items)
  {
    var ms := Matches(word, items);
    assert NonEmptyOffers(ms);
    RunEmptyIff(word, ms, used);
  }

  /** `baseWordUsed` holds exactly when some record matched through its run-ons. */
  lemma CascadeBaseIff(word: string, items: seq<Item>, used: bool)
    ensures CascadeOf(word, items, used).baseWordUsed <==> AnyRunOnMatch(word, items)
  {
    RunBaseIff(word, Matches(word, items), used);
  }

  /** A run-on match leaves a non-empty list, whatever later records do. */
  lemma BaseWordHasList(word: string, items: seq<Item>, used: bool)
    ensures CascadeOf(word, items, used).baseWordUsed ==> CascadeOf(word, items, used).list != []
  {
    CascadeEmptyIff(word, items, used);
    CascadeBaseIff(word, items, used);
  }

  /**
   * A later match overwrites an earlier one: when a record matches, the list
   * is that of the last matching record, either its marker split or an even
   * re-cut of the word into the pronunciation's syllable count.
   */
  lemma CascadeLastMatchWins(word: string, items: seq<Item>, used: bool, k: nat)
    requires k < |items| && MatchEntry(word, items[k]).Some?
    requires forall j :: k < j < |items| ==> MatchEntry(word, items[j]).None?
    ensures var list := CascadeOf(word, items, used).list;
      var m := MatchEntry(word, items[k]).value;
      list == m.syllables || list == EvenSplit(word, PhonemeCount(m.source))
  {
    RunLastMatchWins(word, Matches(word, items), used, k);
  }

  /** The flag is set only by a rebuild and is never cleared. */
  lemma CascadeFlagMonotone(word: string, items: seq<Item>, used: bool)
    ensures used ==> CascadeOf(word, items, used).used
  {
    RunFlagMonotone(word, Matches(word, items), used);
  }

  /**
   * The loop of index.mjs:86-153, threading the request flag through
   * `overrideWithPhonemeMismatch`. The `else` loop of index.mjs:133-151 is not
   * modelled: `ExactRootIsMatched` shows it never finds anything.
   */
  method ResolveEntries(word: string, items: seq<Item>, state: RequestState)
    returns (list: seq<string>, baseWordUsed: bool)
    requires state.Valid()
    modifies state
    ensures state.Valid()
    ensures Cascade(list, state.syllableOverrideUsed, baseWordUsed) ==
      CascadeOf(word, items, old(state.syllableOverrideUsed))
  {
    list, baseWordUsed := [], false;
    ghost var used0 := state.syllableOverrideUsed;
    ghost var ms := Matches(word, items);
    var i := 0;
    while i < |items|
      invariant 0 <= i <= |items|
      invariant state.Valid()
      invariant Cascade(list, state.syllableOverrideUsed, baseWordUsed) == Run(word, ms[..i], used0)
    {
      ghost var before := Cascade(list, state.syllableOverrideUsed, baseWordUsed);
      RunSnoc(word, ms, used0, i);
      var m := MatchEntry(word, items[i]);
      if m.Some? {
        list := state.OverrideWithPhonemeMismatch(word, m.value.source, m.value.syllables);
        if m.value.kind == RunOnMatchKind {
          baseWordUsed := true;
        }
      }
      assert Cascade(list, state.syllableOverrideUsed, baseWordUsed) == Step(word, before, ms[i]);
      i := i + 1;
    }
    assert ms[..|items|] == ms;
  }

  /** The record the headword fallback picks (index.mjs:157-161). */
  predicate FallbackCandidate(item: Item) {
    var hw := RawHeadword(item);
    && hw.Some?
    && var h := RemoveChar(hw.value, '*');
    && h != "" && LowerChar(h[0]) == h[0]
  }

  function FallbackIndex(items: seq<Item>): (k: Option<nat>)
    ensures k.Some? ==> k.value < |items| && FallbackCandidate(items[k.value])
    ensures k.Some? ==> forall j :: 0 <= j < k.value ==> !FallbackCandidate(items[j])
    ensures k.None? ==> forall j :: 0 <= j < |items| ==> !FallbackCandidate(items[j])
  {
    if items == [] then None
    else if FallbackCandidate(items[0]) then Some(0)
    else
      var k := FallbackIndex(items[1..]);
      if k.Some? then Some(k.value + 1) else None
  }

  /** The marker-free headword of a fallback candidate begins with a character that has no case. */
  predicate UncasedCandidate(item: Item) {
    FallbackCandidate(item) &&
    var h := RemoveChar(RawHeadword(item).value, '*');
    UpperChar(h[0]) == h[0]
  }

  /** `syllables` is the marker split of a headword whose marker-free form begins with an ASCII lower-case letter. */
  predicate LowercaseSplit(item: Item, syllables: seq<string>) {
    RawHeadword(item).Some? && syllables == Split(RawHeadword(item).value, '*') &&
    var h := RemoveChar(RawHeadword(item).value, '*');
    h != "" && 'a' <= h[0] <= 'z'
  }

  /** The outcomes of the fallback. */
  datatype Fallback =
    | NoFallback                                    // no record qualifies: the list stays empty
    | UncasedHeadword                               // index.mjs:165-167
    | FromHeadword(syllables: seq<string>, source: PhonemeSource)

  /**
   * The fallback of index.mjs:156-175, run only on an empty list: it refuses a
   * headword whose first character has no case, and otherwise offers the
   * headword's marker split with its whole `prs` array to cross-check.
   */
  function HeadwordFallback(items: seq<Item>): (f: Fallback)
    ensures f.UncasedHeadword? ==> exists j :: 0 <= j < |items| && UncasedCandidate(items[j])
    ensures f.FromHeadword? ==> |f.syllables| >= 1
    ensures f.FromHeadword? ==> exists j :: 0 <= j < |items| && LowercaseSplit(items[j], f.syllables)
    ensures f.NoFallback? <==> forall j :: 0 <= j < |items| ==> !FallbackCandidate(items[j])
  {
    var k := FallbackIndex(items);
    if k.None? then NoFallback
    else
      var hw := RawHeadword(items[k.value]).value;
      var h := RemoveChar(hw, '*');
      if UpperChar(h[0]) == h[0] then UncasedHeadword
      else FromHeadword(Split(hw, '*'), ListSource(HeadwordPrs(items[k.value])))
  }
}
