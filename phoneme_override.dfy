/**
 * `overrideWithPhonemeMismatch` (index.mjs:382-406) and the per-request flag
 * it consults (index.mjs:5-7): when the pronunciation shows more syllables
 * than the marker split gave, the word is re-cut evenly into that many
 * pieces, but only once per request.
 */
module PhonemeOverride {
  import opened Strings
  import opened Dictionary
  import opened EvenSplitting

  /** The guard of index.mjs:386-390. */
  predicate Fires(src: PhonemeSource, current: seq<string>, used: bool) {
    PhonemeCount(src) > 0 && |current| < PhonemeCount(src) && !used
  }

  /** The list the helper returns and the flag it leaves behind, given the flag it found. */
  function Override(word: string, src: PhonemeSource, current: seq<string>, used: bool): (seq<string>, bool) {
    if Fires(src, current, used) then (EvenSplit(word, PhonemeCount(src)), true)
    else (current, used)
  }

  /**
   * A rebuild yields as many pieces as the pronunciation shows, never fewer
   * than it was handed, and they spell the word; without a rebuild the list and
   * the flag come back untouched.
   */
  lemma OverrideShape(word: string, src: PhonemeSource, current: seq<string>, used: bool)
    ensures var (r, u) := Override(word, src, current, used);
      && u == (used || Fires(src, current, used))
      && |r| >= |current|
      && (Fires(src, current, used) ==> |r| == PhonemeCount(src) && Concat(r) == word)
      && (!Fires(src, current, used) ==> r == current && u == used)
  {
    if Fires(src, current, used) {
      EvenSplitCount(word, PhonemeCount(src));
      EvenSplitConcat(word, PhonemeCount(src));
    }
  }

  /** Once the flag is set, no later call rebuilds anything. */
  lemma OverrideAtMostOnce(word: string, src1: PhonemeSource, src2: PhonemeSource, current: seq<string>, used: bool)
    ensures var (r1, u1) := Override(word, src1, current, used);
      var (r2, u2) := Override(word, src2, r1, u1);
      (Fires(src1, current, used) ==> !Fires(src2, r1, u1) && r2 == r1 && u2)
  {
  }

  /** The request-scoped `state` object of index.mjs:5-7. */
  class RequestState {
    var syllableOverrideUsed: bool
    /** How many times the helper has rebuilt a list during this request. */
    ghost var rebuilds: nat

    /** The flag is set exactly when one rebuild has happened. */
    ghost predicate Valid()
      reads this
    {
      rebuilds == if syllableOverrideUsed then 1 else 0
    }

    constructor ()
      ensures Valid() && !syllableOverrideUsed && rebuilds == 0
    {
      syllableOverrideUsed := false;
      rebuilds := 0;
    }

    /**
     * `overrideWithPhonemeMismatch(word, src, current, state)`: rebuilds at
     * most once per request, as `rebuilds <= 1` under `Valid()` shows.
     */
    method OverrideWithPhonemeMismatch(word: string, src: PhonemeSource, current: seq<string>)
      returns (r: seq<string>)
      requires Valid()
      modifies this
      ensures Valid() && rebuilds <= 1
      ensures (r, syllableOverrideUsed) == Override(word, src, current, old(syllableOverrideUsed))
      ensures rebuilds == old(rebuilds) + (if Fires(src, current, old(syllableOverrideUsed)) then 1 else 0)
    {
      var phonemeSyllables := PhonemeCount(src);
      if phonemeSyllables > 0 && |current| < phonemeSyllables && !syllableOverrideUsed {
        syllableOverrideUsed := true;
        rebuilds := rebuilds + 1;
        r := SplitEvenly(word, phonemeSyllables);
        return;
      }
      r := current;
    }
  }
}
