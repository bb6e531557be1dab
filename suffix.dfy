/**
 * The suffix logic of index.mjs:177-244, run when the syllables came from a
 * base form: a plural pass, then a past-tense pass, each stitching the
 * ending onto the syllable list in place.
 */
module SuffixStitching {
  import opened Wrappers
  import opened Strings

  /** The word the syllable list spells, lower-cased. */
  function Joined(list: seq<string>): string {
    Lower(Concat(list))
  }

  /** The list with its last syllable replaced by `x`. */
  function WithLast(list: seq<string>, x: string): (r: seq<string>)
    requires |list| > 0
    ensures |r| == |list| && r[..|list| - 1] == list[..|list| - 1] && r[|list| - 1] == x
  {
    list[..|list| - 1] + [x]
  }

  /** The base ends in s, x, z, ch or sh, the endings that take "es" as a syllable. */
  predicate SibilantEnding(base: string) {
    EndsWith(base, "s") || EndsWith(base, "x") || EndsWith(base, "z") || EndsWith(base, "ch") || EndsWith(base, "sh")
  }

  /**
   * The plural pass of index.mjs:179-208: the result list and the syllables it
   * added to the count. Only the first of "ies", "es", "s" that the word ends
   * with is tried; "ies" rewrites the last syllable unconditionally.
   */
  function StitchPlural(list: seq<string>, word: string): (r: (seq<string>, nat))
    requires |list| > 0
    ensures |r.0| == |list| + r.1 && r.1 <= 1
    ensures EndsWith(word, "ies") ==>
      r.1 == 0 && r.0[..|list| - 1] == list[..|list| - 1] && EndsWith(r.0[|list| - 1], "ies")
    ensures r.1 == 1 <==> !EndsWith(word, "ies") && EndsWith(word, "es") && r.0 != list
  {
    var last := list[|list| - 1];
    if EndsWith(word, "ies") then
      (WithLast(list, if EndsWith(last, "y") then last[..|last| - 1] + "ies" else last + "ies"), 0)
    else if EndsWith(word, "es") then
      var base := word[..|word| - 2];
      if SibilantEnding(base) && Joined(list) == base then (list + ["es"], 1) else (list, 0)
    else if EndsWith(word, "s") then
      var base := word[..|word| - 1];
      if Joined(list) == base then (WithLast(list, last + "s"), 0) else (list, 0)
    else (list, 0)
  }

  /** `word` is `base` followed by `suffix`. */
  lemma SplitSuffix(word: string, suffix: string)
    requires EndsWith(word, suffix)
    ensures word == word[..|word| - |suffix|] + suffix
  {
  }

  /** Adding `x` to the text of the list adds `x` to its lower-cased join, for a lower-case `x`. */
  lemma JoinedGrows(list: seq<string>, x: string)
    requires |list| > 0 && Lower(x) == x
    ensures Joined(list + [x]) == Joined(list) + x
    ensures Joined(WithLast(list, list[|list| - 1] + x)) == Joined(list) + x
  {
    ConcatAppend(list, [x]);
    assert Concat([x]) == x + Concat([]);
    LowerAppend(Concat(list), x);
    ConcatExtendLast(list, x);
  }

  /** Outside the "ies" case, a plural stitch that changes the list makes it spell the word. */
  lemma {:induction false} PluralSpellsWord(list: seq<string>, word: string)
    requires |list| > 0 && !EndsWith(word, "ies")
    ensures StitchPlural(list, word).0 == list || Joined(StitchPlural(list, word).0) == word
  {
    assert Lower("es") == "es";
    assert Lower("s") == "s";
    if EndsWith(word, "es") {
      SplitSuffix(word, "es");
      JoinedGrows(list, "es");
    } else if EndsWith(word, "s") {
      SplitSuffix(word, "s");
      JoinedGrows(list, "s");
    }
  }

  /**
   * What the plural pass does, suffix by suffix. An "ies" word always turns
   * the last syllable's final "y" (or nothing) into "ies". An "es" word
   * pushes "es" as a syllable exactly when the base ends in s, x, z, ch or sh
   * and the list spells the base, and then spells the word. An "s" word
   * gets "s" on its last syllable exactly when the list spells the base. Any
   * other word leaves the list alone.
   */
  lemma PluralEffect(list: seq<string>, word: string)
    requires |list| > 0
    ensures var (r, added) := StitchPlural(list, word);
      var last := list[|list| - 1];
      && (EndsWith(word, "ies") ==>
            r == WithLast(list, (if EndsWith(last, "y") then last[..|last| - 1] else last) + "ies") && added == 0)
      && (!EndsWith(word, "ies") && EndsWith(word, "es") ==>
            var base := word[..|word| - 2];
            && (added == 1 <==> SibilantEnding(base) && Joined(list) == base)
            && (added == 1 ==> r == list + ["es"] && Joined(r) == word)
            && (added == 0 ==> r == list))
      && (!EndsWith(word, "es") && EndsWith(word, "s") ==>
            && added == 0
            && (r != list <==> Joined(list) == word[..|word| - 1])
            && (r != list ==> r == WithLast(list, last + "s") && Joined(r) == word))
      && (!EndsWith(word, "s") ==> r == list && added == 0)
  {
    var last := list[|list| - 1];
    assert Lower("es") == "es";
    assert Lower("s") == "s";
    if EndsWith(word, "ies") {
    } else if EndsWith(word, "es") {
      SplitSuffix(word, "es");
      JoinedGrows(list, "es");
    } else if EndsWith(word, "s") {
      SplitSuffix(word, "s");
      JoinedGrows(list, "s");
      assert |last + "s"| != |last|;
    }
  }

  /** "cakes" ends in "es", so "s" is never tried and ["cake"] is left as it is. */
  lemma PluralFirstSuffixOnly()
    ensures StitchPlural(["cake"], "cakes") == (["cake"], 0)
  {
    assert !EndsWith("cakes", "ies");
    assert EndsWith("cakes", "es");
    assert "cakes"[..3] == "cak";
    assert !SibilantEnding("cak");
  }

  /** The "ies" rewrite checks no root: ["se", "ries"] for "series" becomes ["se", "riesies"]. */
  lemma PluralIesUnchecked()
    ensures StitchPlural(["se", "ries"], "series").0 == ["se", "riesies"]
  {
    assert EndsWith("series", "ies");
    assert !EndsWith("ries", "y");
    assert "ries" + "ies" == "riesies";
    assert ["se", "ries"][..1] == ["se"];
  }

  /** The regular-expression tests of index.mjs:214-215. */
  datatype PastTest =
    | NoTest
    | AfterTD     // `/[td]$/`
    | AfterOther  // `/[^td]$/`

  /** `syllables: 1` in the source is `pushes`: the suffix becomes a syllable of its own. */
  datatype PastRule = PastRule(suffix: string, pushes: bool, replaceY: bool, test: PastTest)

  /** `pastTenseSuffixes` of index.mjs:212-217, in order. */
  const PastRules: seq<PastRule> := [
    PastRule("ied", false, true, NoTest),
    PastRule("ed", true, false, AfterTD),
    PastRule("ed", false, false, AfterOther),
    PastRule("d", false, false, NoTest)
  ]

  predicate TestPasses(t: PastTest, base: string) {
    match t
    case NoTest => true
    case AfterTD => |base| > 0 && (base[|base| - 1] == 't' || base[|base| - 1] == 'd')
    case AfterOther => |base| > 0 && base[|base| - 1] != 't' && base[|base| - 1] != 'd'
  }

  /** The text without its last character; empty text stays empty. */
  function DropLast(s: string): string {
    if s == [] then [] else s[..|s| - 1]
  }

  /** A rule that passes its test pushes its suffix as a new syllable or appends it to the last one. */
  function Attach(rule: PastRule, list: seq<string>): (r: (seq<string>, nat))
    requires |list| > 0
    ensures |r.0| == |list| + r.1 && r.1 <= 1
  {
    if rule.pushes then (list + [rule.suffix], 1)
    else (WithLast(list, list[|list| - 1] + rule.suffix), 0)
  }

  /**
   * One rule of the loop of index.mjs:219-241 as written; `None` stands for
   * `continue`. The "ied" rule compares the word less "ied" with the joined
   * list itself, so a list spelling the "y" form is never matched.
   */
  function ApplyAsWritten(rule: PastRule, list: seq<string>, word: string): (r: Option<(seq<string>, nat)>)
    requires |list| > 0
    ensures r.Some? ==> |r.value.0| == |list| + r.value.1 && r.value.1 <= 1
  {
    if !EndsWith(word, rule.suffix) then None
    else
      var candidate := word[..|word| - |rule.suffix|];
      var joined := Joined(list);
      if candidate != joined then None
      else if rule.replaceY && EndsWith(joined, "y") then
        Some((WithLast(list, DropLast(list[|list| - 1]) + rule.suffix), 0))
      else if TestPasses(rule.test, candidate) then Some(Attach(rule, list))
      else None
  }

  /**
   * One rule with the "ied" case as evidently intended: the word less "ied",
   * followed by "y", is the joined list, and the final "y" becomes "ied".
   */
  function ApplyRule(rule: PastRule, list: seq<string>, word: string): (r: Option<(seq<string>, nat)>)
    requires |list| > 0
    ensures r.Some? ==> |r.value.0| == |list| + r.value.1 && r.value.1 <= 1
  {
    if !EndsWith(word, rule.suffix) then None
    else
      var candidate := word[..|word| - |rule.suffix|];
      var joined := Joined(list);
      var last := list[|list| - 1];
      if rule.replaceY && joined == candidate + "y" && |last| > 0 then
        Some((WithLast(list, last[..|last| - 1] + rule.suffix), 0))
      else if candidate != joined then None
      else if TestPasses(rule.test, candidate) then Some(Attach(rule, list))
      else None
  }

  /** The first rule, in order, that applies as written; none leaves the list as it is. */
  function FirstRuleAsWritten(rules: seq<PastRule>, list: seq<string>, word: string): (r: (seq<string>, nat))
    requires |list| > 0
    ensures |r.0| == |list| + r.1 && r.1 <= 1
  {
    if rules == [] then (list, 0)
    else
      var a := ApplyAsWritten(rules[0], list, word);
      if a.Some? then a.value else FirstRuleAsWritten(rules[1..], list, word)
  }

  function FirstRule(rules: seq<PastRule>, list: seq<string>, word: string): (r: (seq<string>, nat))
    requires |list| > 0
    ensures |r.0| == |list| + r.1 && r.1 <= 1
  {
    if rules == [] then (list, 0)
    else
      var a := ApplyRule(rules[0], list, word);
      if a.Some? then a.value else FirstRule(rules[1..], list, word)
  }

  /**
   * The past-tense pass as written (index.mjs:210-243), the one the handler
   * runs: it acts only while the list does not spell the word.
   */
  function PastTenseAsWritten(list: seq<string>, word: string): (r: (seq<string>, nat))
    requires |list| > 0
    ensures |r.0| == |list| + r.1 && r.1 <= 1
  {
    if Joined(list) != word then FirstRuleAsWritten(PastRules, list, word) else (list, 0)
  }

  /** The past-tense pass with the corrected "ied" rule. */
  function PastTense(list: seq<string>, word: string): (seq<string>, nat)
    requires |list| > 0
  {
    if Joined(list) != word then FirstRule(PastRules, list, word) else (list, 0)
  }

  /** Turning the final "y" of the last syllable into a lower-case suffix spells the candidate plus the suffix. */
  lemma ReplaceYSpells(list: seq<string>, candidate: string, suffix: string)
    requires |list| > 0 && |list[|list| - 1]| > 0 && Lower(suffix) == suffix
    requires Joined(list) == candidate + "y"
    ensures var last := list[|list| - 1];
      Joined(WithLast(list, last[..|last| - 1] + suffix)) == candidate + suffix
  {
    var last := list[|list| - 1];
    var c := Concat(list);
    var init := list[..|list| - 1];
    ConcatWithLast(list, last[..|last| - 1] + suffix);
    assert Concat(init) + last[..|last| - 1] == c[..|c| - 1];
    LowerPrefix(c, |c| - 1);
    assert Lower(c[..|c| - 1]) == candidate;
    LowerAppend(c[..|c| - 1], suffix);
  }

  /** A corrected rule that fires makes the list spell the word. */
  lemma ApplyRuleSpells(rule: PastRule, list: seq<string>, word: string)
    requires |list| > 0 && Lower(rule.suffix) == rule.suffix
    requires ApplyRule(rule, list, word).Some?
    ensures Joined(ApplyRule(rule, list, word).value.0) == word
  {
    var candidate := word[..|word| - |rule.suffix|];
    SplitSuffix(word, rule.suffix);
    var last := list[|list| - 1];
    if rule.replaceY && Joined(list) == candidate + "y" && |last| > 0 {
      ReplaceYSpells(list, candidate, rule.suffix);
    } else {
      JoinedGrows(list, rule.suffix);
    }
  }

  lemma {:induction false} FirstRuleSpells(rules: seq<PastRule>, list: seq<string>, word: string)
    requires |list| > 0
    requires forall i :: 0 <= i < |rules| ==> Lower(rules[i].suffix) == rules[i].suffix
    ensures FirstRule(rules, list, word).0 == list || Joined(FirstRule(rules, list, word).0) == word
    decreases |rules|
  {
    if rules != [] {
      if ApplyRule(rules[0], list, word).Some? {
        ApplyRuleSpells(rules[0], list, word);
      } else {
        FirstRuleSpells(rules[1..], list, word);
      }
    }
  }

  /**
   * With the corrected "ied" rule, the past-tense pass either leaves the list
   * alone or makes it spell the word, and the count grows by exactly the
   * syllables it pushed.
   */
  lemma PastTenseSpellsWord(list: seq<string>, word: string)
    requires |list| > 0
    ensures var (r, added) := PastTense(list, word);
      |r| == |list| + added && added <= 1 && (r == list || Joined(r) == word)
  {
    assert Lower("ied") == "ied";
    assert Lower("ed") == "ed";
    assert Lower("d") == "d";
    FirstRuleSpells(PastRules, list, word);
  }

  /** The "ied" rule as written applies: the word less "ied" is what the list spells. */
  predicate IedApplies(list: seq<string>, word: string) {
    EndsWith(word, "ied") && Joined(list) == word[..|word| - 3]
  }

  /** An "ed" rule applies: the word less "ed" is what the list spells, and that is not empty. */
  predicate EdApplies(list: seq<string>, word: string) {
    EndsWith(word, "ed") && Joined(list) == word[..|word| - 2] && Joined(list) != ""
  }

  /** The "d" rule applies: the word less "d" is what the list spells. */
  predicate DApplies(list: seq<string>, word: string) {
    EndsWith(word, "d") && Joined(list) == word[..|word| - 1]
  }

  /**
   * What the past-tense pass as written does, rule by rule. At most one of
   * the conditions holds, since each fixes the length of the spelled base.
   * "ied" on a base ending in "y" drops the last syllable's final letter and
   * appends "ied"; otherwise it appends "ied". "ed" after t or d pushes "ed"
   * as a syllable; after anything else it appends "ed". "d" appends "d". When
   * no rule applies the list is left alone.
   */
  lemma PastTenseAsWrittenEffect(list: seq<string>, word: string)
    requires |list| > 0
    ensures var (r, added) := PastTenseAsWritten(list, word);
      var joined := Joined(list);
      var last := list[|list| - 1];
      && (IedApplies(list, word) ==>
            r == WithLast(list, (if EndsWith(joined, "y") then DropLast(last) else last) + "ied") && added == 0)
      && (EdApplies(list, word) && TestPasses(AfterTD, joined) ==> r == list + ["ed"] && added == 1)
      && (EdApplies(list, word) && !TestPasses(AfterTD, joined) ==> r == WithLast(list, last + "ed") && added == 0)
      && (DApplies(list, word) ==> r == WithLast(list, last + "d") && added == 0)
      && (!IedApplies(list, word) && !EdApplies(list, word) && !DApplies(list, word) ==> r == list && added == 0)
  {
    var joined := Joined(list);
    var rest := PastRules[1..];
    assert rest[1..][1..] == [PastRules[3]] && [PastRules[3]][1..] == [];
    var f := FirstRuleAsWritten(PastRules, list, word);
    if IedApplies(list, word) {
      assert |joined| != |word|;
      assert ApplyAsWritten(PastRules[0], list, word).Some?;
    } else if EdApplies(list, word) {
      assert |joined| != |word|;
      assert ApplyAsWritten(PastRules[0], list, word).None?;
      if TestPasses(AfterTD, joined) {
        assert ApplyAsWritten(rest[0], list, word) == Some((list + ["ed"], 1));
        assert f == FirstRuleAsWritten(rest, list, word);
      } else {
        assert ApplyAsWritten(rest[0], list, word).None?;
        assert ApplyAsWritten(rest[1], list, word) == Some((WithLast(list, list[|list| - 1] + "ed"), 0));
        assert f == FirstRuleAsWritten(rest, list, word) == FirstRuleAsWritten(rest[1..], list, word);
      }
    } else if DApplies(list, word) {
      assert |joined| != |word|;
      assert ApplyAsWritten(PastRules[0], list, word).None?;
      assert ApplyAsWritten(rest[0], list, word).None?;
      assert ApplyAsWritten(rest[1], list, word).None?;
      assert ApplyAsWritten(rest[1..][1], list, word).Some?;
      assert f == FirstRuleAsWritten(rest, list, word) == FirstRuleAsWritten(rest[1..], list, word);
      assert FirstRuleAsWritten(rest[1..], list, word) == FirstRuleAsWritten(rest[1..][1..], list, word);
    } else if joined != word {
      assert ApplyAsWritten(PastRules[0], list, word).None?;
      assert ApplyAsWritten(rest[0], list, word).None?;
      assert ApplyAsWritten(rest[1], list, word).None?;
      assert ApplyAsWritten(rest[1..][1], list, word).None?;
      assert f == FirstRuleAsWritten(rest, list, word) == FirstRuleAsWritten(rest[1..], list, word);
      assert FirstRuleAsWritten(rest[1..], list, word) == FirstRuleAsWritten(rest[1..][1..], list, word);
      assert FirstRuleAsWritten(rest[1..][1..], list, word) == FirstRuleAsWritten([], list, word);
    }
  }

  /**
   * As written, the pass leaves the list alone or makes it spell the word,
   * except when the "ied" rule meets a base ending in "y": then, for a
   * non-empty last syllable, the list changes and no longer spells the word.
   */
  lemma PastTenseAsWrittenSpells(list: seq<string>, word: string)
    requires |list| > 0
    ensures var r := PastTenseAsWritten(list, word).0;
      r == list || Joined(r) == word || (IedApplies(list, word) && EndsWith(Joined(list), "y"))
    ensures var r := PastTenseAsWritten(list, word).0;
      IedApplies(list, word) && EndsWith(Joined(list), "y") && |list[|list| - 1]| > 0 ==>
        r != list && Joined(r) != word
  {
    PastTenseAsWrittenEffect(list, word);
    var last := list[|list| - 1];
    assert Lower("ied") == "ied";
    assert Lower("ed") == "ed";
    assert Lower("d") == "d";
    if IedApplies(list, word) {
      SplitSuffix(word, "ied");
      if EndsWith(Joined(list), "y") {
        if |last| > 0 {
          var x := DropLast(last) + "ied";
          ConcatWithLast(list, x);
          assert |Joined(WithLast(list, x))| == |Concat(list)| + 2;
        }
      } else {
        JoinedGrows(list, "ied");
      }
    } else if EdApplies(list, word) {
      SplitSuffix(word, "ed");
      JoinedGrows(list, "ed");
    } else if DApplies(list, word) {
      SplitSuffix(word, "d");
      JoinedGrows(list, "d");
    }
  }

  /** As written, ["xy"] for "xyied" becomes ["xied"], which spells "xied" rather than the word. */
  lemma YIedMisspellsAsWritten()
    ensures PastTenseAsWritten(["xy"], "xyied") == (["xied"], 0)
    ensures Joined(["xied"]) != "xyied"
  {
    var list := ["xy"];
    assert Concat(list) == "xy";
    assert Joined(list) == "xy";
    assert "xyied"[..2] == "xy";
    assert EndsWith("xyied", "ied");
    assert DropLast("xy") + "ied" == "xied";
    assert WithLast(list, "xied") == ["xied"];
    assert ApplyAsWritten(PastRules[0], list, "xyied") == Some((["xied"], 0));
    assert Concat(["xied"]) == "xied";
  }

  /** As written, "carried" is never stitched onto ["car", "ry"], which spell "carry". */
  lemma CarriedAsWritten()
    ensures PastTenseAsWritten(["car", "ry"], "carried") == (["car", "ry"], 0)
  {
    var list := ["car", "ry"];
    assert Concat(list) == "carry";
    assert Joined(list) == "carry";
    assert "carried"[..4] == "carr";
    assert "carried"[..5] == "carri";
    assert "carried"[..6] == "carrie";
  }

  /** With the corrected rule, ["car", "ry"] becomes ["car", "ried"], which spells "carried". */
  lemma CarriedCorrected()
    ensures PastTense(["car", "ry"], "carried") == (["car", "ried"], 0)
    ensures Joined(["car", "ried"]) == "carried"
  {
    var list := ["car", "ry"];
    assert Concat(list) == "carry";
    assert Joined(list) == "carry";
    assert Concat(["car", "ried"]) == "carried";
    assert "carried"[..4] == "carr";
    assert EndsWith("carried", "ied");
    assert "carry" == "carr" + "y";
    assert "r" + "ied" == "ried";
    assert "ry"[..1] == "r";
    assert list[..1] == ["car"];
    assert WithLast(list, "ried") == ["car", "ried"];
    assert ApplyRule(PastRules[0], list, "carried") == Some((["car", "ried"], 0));
  }

  /**
   * The pass of index.mjs:219-242 as written: the rules in order, stopping at
   * the first that acts.
   */
  method StitchPastTense(list: seq<string>, word: string) returns (r: seq<string>, added: nat)
    requires |list| > 0
    ensures (r, added) == PastTenseAsWritten(list, word)
    ensures |r| == |list| + added && added <= 1
    ensures r == list || Joined(r) == word || (IedApplies(list, word) && EndsWith(Joined(list), "y"))
  {
    PastTenseAsWrittenSpells(list, word);
    r, added := list, 0;
    if Joined(list) == word {
      return;
    }
    var i := 0;
    while i < |PastRules|
      invariant 0 <= i <= |PastRules|
      invariant FirstRuleAsWritten(PastRules[i..], list, word) == FirstRuleAsWritten(PastRules, list, word)
    {
      var applied := ApplyAsWritten(PastRules[i], list, word);
      if applied.Some? {
        r, added := applied.value.0, applied.value.1;
        return;
      }
      assert PastRules[i..][1..] == PastRules[i + 1..];
      i := i + 1;
    }
  }
}
