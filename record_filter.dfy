/**
 * The sanity checks index.mjs:43-78 runs on the dictionary response before any
 * syllable work: suggestions only, no entries, too offensive, no common-word
 * headword, in that order.
 */
module RecordFilter {
  import opened Wrappers
  import opened Strings
  import opened Dictionary

  datatype Rejection =
    | SuggestionsOnly  // index.mjs:43-46
    | NoEntries        // index.mjs:48-52
    | Offensive        // index.mjs:55-62
    | NotCommonWord    // index.mjs:65-78

  predicate IsOffensive(item: Item) {
    var e := EntryOf(item);
    e.meta.Some? && e.meta.value.offensive
  }

  /** The number of records flagged offensive (index.mjs:55). */
  function OffensiveCount(items: seq<Item>): (n: nat)
    ensures n <= |items|
  {
    if items == [] then 0
    else (if IsOffensive(items[0]) then 1 else 0) + OffensiveCount(items[1..])
  }

  /** At least 35% of the records are offensive, stated without division. */
  predicate TooOffensive(items: seq<Item>) {
    20 * OffensiveCount(items) >= 7 * |items|
  }

  lemma ScalePreservesOrder(x: real, y: real, t: real)
    requires t > 0.0
    ensures x >= y <==> x * t >= y * t
  {
    if x >= y {
      assert (x - y) * t >= 0.0;
    } else {
      assert (y - x) * t > 0.0;
    }
  }

  /** The integer test is the ratio test of the source, read over the reals. */
  lemma OffensiveThreshold(count: nat, total: nat)
    requires total > 0
    ensures (count as real / total as real >= 0.35) <==> 20 * count >= 7 * total
  {
    var c, t := count as real, total as real;
    var ratio := c / t;
    assert ratio * t == c;
    ScalePreservesOrder(ratio, 0.35, t);
    assert ratio >= 0.35 <==> c >= 0.35 * t;
    assert (20 * count) as real == 20.0 * c;
    assert (7 * total) as real == 7.0 * t;
  }

  predicate HasDigit(s: string) {
    exists c :: c in s && IsDigit(c)
  }

  /**
   * The test of index.mjs:66-73 on one element: its marker-free headword is
   * missing or empty, begins with a character equal to its own upper case, or
   * holds a space, hyphen, apostrophe or digit.
   */
  predicate HeadwordInvalid(item: Item) {
    var hw := RawHeadword(item);
    hw.None? ||
      var h := RemoveChar(hw.value, '*');
      h == "" || UpperChar(h[0]) == h[0] ||
      ' ' in h || '-' in h || '\'' in h || HasDigit(h)
  }

  /** The verdict on a response; `None` lets the handler go on to syllable resolution. */
  function FilterRecords(data: MwResponse): (verdict: Option<Rejection>)
    ensures verdict == Some(SuggestionsOnly) <==>
      data.Items? && |data.items| > 0 && data.items[0].Suggestion?
    ensures verdict == Some(NoEntries) <==> data == NotArray || data == Items([])
    ensures verdict == Some(Offensive) <==>
      data.Items? && |data.items| > 0 && !data.items[0].Suggestion? && TooOffensive(data.items)
    ensures verdict == None <==>
      data.Items? && |data.items| > 0 && !data.items[0].Suggestion? && !TooOffensive(data.items) &&
      exists i :: 0 <= i < |data.items| && !HeadwordInvalid(data.items[i])
  {
    if data.Items? && |data.items| > 0 && data.items[0].Suggestion? then Some(SuggestionsOnly)
    else if data.NotArray? || |data.items| == 0 then Some(NoEntries)
    else if TooOffensive(data.items) then Some(Offensive)
    else if forall i :: 0 <= i < |data.items| ==> HeadwordInvalid(data.items[i]) then Some(NotCommonWord)
    else None
  }

  /** A marker-free headword that begins with an ASCII lower-case letter and has no space, hyphen, apostrophe or digit. */
  predicate CommonHeadword(item: Item) {
    RawHeadword(item).Some? &&
    var h := RemoveChar(RawHeadword(item).value, '*');
    h != "" && 'a' <= h[0] <= 'z' && ' ' !in h && '-' !in h && '\'' !in h && !HasDigit(h)
  }

  /**
   * A response that passes holds a record whose marker-free headword begins
   * with an ASCII lower-case letter and has no space, hyphen, apostrophe or digit.
   */
  lemma AcceptedHasCommonHeadword(data: MwResponse)
    requires FilterRecords(data) == None
    ensures exists i :: 0 <= i < |data.items| && CommonHeadword(data.items[i])
  {
    var i :| 0 <= i < |data.items| && !HeadwordInvalid(data.items[i]);
    var h := RemoveChar(RawHeadword(data.items[i]).value, '*');
    assert UpperChar(h[0]) != h[0];
    assert CommonHeadword(data.items[i]);
  }
}
