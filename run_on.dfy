/**
 * `matchPluralRunOn` (index.mjs:409-423): look through an entry's run-on
 * forms (`uros`) for one of which the queried word is the form itself or a
 * plural.
 */
module RunOnMatching {
  import opened Wrappers
  import opened Strings
  import opened Dictionary

  /** The non-empty candidate forms, normalised, in their order. */
  function PresentForms(forms: seq<Option<string>>): (roots: seq<string>)
    ensures |roots| <= |forms|
  {
    if forms == [] then []
    else
      var rest := PresentForms(forms[1..]);
      if forms[0].Some? && forms[0].value != "" then [Normalize(forms[0].value)] + rest else rest
  }

  /** Every present, non-empty form appears among the roots, normalized. */
  lemma {:induction false} PresentFormsContains(forms: seq<Option<string>>)
    ensures forall i :: 0 <= i < |forms| && forms[i].Some? && forms[i].value != "" ==>
      Normalize(forms[i].value) in PresentForms(forms)
    decreases |forms|
  {
    if forms != [] {
      PresentFormsContains(forms[1..]);
      assert forall i :: 1 <= i < |forms| ==> forms[i] == forms[1..][i - 1];
    }
  }

  /** The variant spellings of a run-on entry, in order; none when it lists no variants. */
  function VariantForms(vrs: Option<seq<Variant>>): (forms: seq<Option<string>>)
    ensures vrs.None? ==> forms == []
    ensures vrs.Some? ==> (
      && |forms| == |vrs.value|
      && forall i :: 0 <= i < |forms| ==> forms[i] == vrs.value[i].va)
  {
    if vrs.None? then [] else seq(|vrs.value|, i requires 0 <= i < |vrs.value| => vrs.value[i].va)
  }

  /** The roots of a run-on: `ure` and then its variants, marker-free and lower-cased. */
  function RootForms(r: RunOn): seq<string> {
    PresentForms([Some(r.ure)] + VariantForms(r.vrs))
  }

  /** The root with a final "y" turned into "ies"; a root without one is left as it is. */
  function ReplaceTrailingY(root: string): string {
    if EndsWith(root, "y") then root[..|root| - 1] + "ies" else root
  }

  /** The suffix tested first of index.mjs:416-419 that turns `root` into `word`. */
  function PluralSuffix(word: string, root: string): Option<string> {
    if word == root then Some("")
    else if word == root + "s" then Some("s")
    else if word == root + "es" then Some("es")
    else if word == ReplaceTrailingY(root) then Some("ies")
    else None
  }

  /** Reference reading: `word` is `root`, `root` plus "s" or "es", or `root` with its final "y" made "ies". */
  predicate IsPluralForm(word: string, root: string) {
    word == root || word == root + "s" || word == root + "es" ||
    (EndsWith(root, "y") && word == root[..|root| - 1] + "ies")
  }

  lemma PluralSuffixMeaning(word: string, root: string)
    ensures PluralSuffix(word, root).Some? <==> IsPluralForm(word, root)
    ensures PluralSuffix(word, root) == Some("") ==> word == root
    ensures PluralSuffix(word, root) == Some("s") ==> word == root + "s"
    ensures PluralSuffix(word, root) == Some("es") ==> word == root + "es"
    ensures PluralSuffix(word, root) == Some("ies") ==> EndsWith(root, "y") && word == root[..|root| - 1] + "ies"
  {
  }

  /** No root of the run-on turns into `word`. */
  predicate NoRootMatches(word: string, r: RunOn) {
    forall root :: root in RootForms(r) ==> !IsPluralForm(word, root)
  }

  /** What the search returns: the run-on (and its position), the root and its suffix. */
  datatype RunOnMatch = RunOnMatch(index: nat, runOn: RunOn, rootIndex: nat, root: string, suffix: string)

  /** Position of the first present result from `i` on: the shape of both loops of index.mjs:410-421. */
  function FirstFound<T>(results: seq<Option<T>>, i: nat): (k: Option<nat>)
    requires i <= |results|
    ensures k.Some? ==> i <= k.value < |results| && results[k.value].Some?
    decreases |results| - i
  {
    if i == |results| then None
    else if results[i].Some? then Some(i)
    else FirstFound(results, i + 1)
  }

  /** No result before the one found is present, and `None` means none is. */
  lemma {:induction false} FirstFoundIsFirst<T>(results: seq<Option<T>>, i: nat)
    requires i <= |results|
    ensures var k := FirstFound(results, i);
      && (k.Some? ==> forall j :: i <= j < k.value ==> results[j].None?)
      && (k.None? ==> forall j :: i <= j < |results| ==> results[j].None?)
    decreases |results| - i
  {
    if i < |results| && results[i].None? {
      FirstFoundIsFirst(results, i + 1);
    }
  }

  /** The suffix each root would take to become `word` (index.mjs:416-419). */
  function RootSuffixes(word: string, roots: seq<string>): (r: seq<Option<string>>)
    ensures |r| == |roots|
    ensures forall j :: 0 <= j < |roots| ==> r[j] == PluralSuffix(word, roots[j])
  {
    seq(|roots|, j requires 0 <= j < |roots| => PluralSuffix(word, roots[j]))
  }

  /** The inner loop of index.mjs:415-420: the position of the first root of `r` that turns into `word`. */
  function RunOnSearch(word: string, r: RunOn): Option<nat> {
    FirstFound(RootSuffixes(word, RootForms(r)), 0)
  }

  /** A run-on whose search fails has no root that turns into `word`. */
  lemma NoFirstRoot(word: string, r: RunOn)
    requires RunOnSearch(word, r).None?
    ensures NoRootMatches(word, r)
  {
    var roots := RootForms(r);
    FirstFoundIsFirst(RootSuffixes(word, roots), 0);
    forall root | root in roots ensures !IsPluralForm(word, root) {
      var j :| 0 <= j < |roots| && roots[j] == root;
      PluralSuffixMeaning(word, root);
    }
  }

  /** The outer loop's view: the inner search of every run-on, in order. */
  function Searches(word: string, uros: seq<RunOn>): (r: seq<Option<nat>>)
    ensures |r| == |uros|
    ensures forall k :: 0 <= k < |uros| ==> r[k] == RunOnSearch(word, uros[k])
  {
    seq(|uros|, k requires 0 <= k < |uros| => RunOnSearch(word, uros[k]))
  }

  /**
   * `m` names run-on `m.index` of `uros` and its root `m.rootIndex`, the first
   * of that run-on's roots to turn into `word`, with the suffix that does it.
   */
  predicate FirstRootOf(word: string, uros: seq<RunOn>, m: RunOnMatch) {
    && m.index < |uros| && m.runOn == uros[m.index]
    && m.rootIndex < |RootForms(m.runOn)|
    && m.root == RootForms(m.runOn)[m.rootIndex]
    && PluralSuffix(word, m.root) == Some(m.suffix)
    && forall k :: 0 <= k < m.rootIndex ==> PluralSuffix(word, RootForms(m.runOn)[k]).None?
  }

  /**
   * `matchPluralRunOn(wordLower, runonList)`: the first run-on, in list order,
   * with a root of which `word` is the form or a plural, and the first such
   * root in that run-on; `None` exactly when no root of any run-on qualifies.
   */
  function MatchPluralRunOn(word: string, uros: seq<RunOn>): (m: Option<RunOnMatch>)
    ensures m.Some? ==> (
      && m.value.index < |uros| && m.value.runOn == uros[m.value.index]
      && m.value.root in RootForms(m.value.runOn) && IsPluralForm(word, m.value.root)
      && forall k :: 0 <= k < m.value.index ==> NoRootMatches(word, uros[k]))
    ensures m.None? <==> forall k :: 0 <= k < |uros| ==> NoRootMatches(word, uros[k])
  {
    var searches := Searches(word, uros);
    var found := FirstFound(searches, 0);
    FirstFoundIsFirst(searches, 0);
    var hi := if found.Some? then found.value else |uros|;
    assert forall k :: 0 <= k < hi ==> NoRootMatches(word, uros[k]) by {
      forall k | 0 <= k < hi ensures NoRootMatches(word, uros[k]) {
        NoFirstRoot(word, uros[k]);
      }
    }
    if found.None? then None
    else
      var k := found.value;
      var roots := RootForms(uros[k]);
      var j := searches[k].value;
      assert j < |roots|;
      var suffix := RootSuffixes(word, roots)[j];
      PluralSuffixMeaning(word, roots[j]);
      Some(RunOnMatch(k, uros[k], j, roots[j], suffix.value))
  }

  /** The root named is the first of its run-on's roots to turn into `word`. */
  lemma MatchIsFirstRoot(word: string, uros: seq<RunOn>)
    ensures MatchPluralRunOn(word, uros).Some? ==> FirstRootOf(word, uros, MatchPluralRunOn(word, uros).value)
  {
    var m := MatchPluralRunOn(word, uros);
    if m.Some? {
      FirstFoundIsFirst(RootSuffixes(word, RootForms(m.value.runOn)), 0);
    }
  }

  /**
   * The `else` loop of index.mjs:133-151 only acts on a root equal to the word,
   * and any such root makes `matchPluralRunOn` succeed: the loop is dead code.
   */
  lemma ExactRootIsMatched(word: string, uros: seq<RunOn>, k: nat)
    requires k < |uros| && word in RootForms(uros[k])
    ensures MatchPluralRunOn(word, uros).Some?
  {
    assert IsPluralForm(word, word);
    assert !NoRootMatches(word, uros[k]);
  }
}
