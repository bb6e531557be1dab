/**
 * The statistics `endGame` (script.js:325-424) folds a finished game into.
 * The stored values it reads and writes are one `Stats` value going in and
 * one coming out; the game's identifier is handed in.
 */
module GameStatistics {
  import opened Wrappers
  import opened Strings
  import opened GameRules
  import opened Game

  // ---------------------------------------------------------------------------
  // The syllable tally (script.js:393-401)
  // ---------------------------------------------------------------------------

  /** `syllableCounts`: its entries in insertion order, as `Object.entries` lists them. */
  type Counts = seq<(string, nat)>

  function Keys(c: Counts): (ks: seq<string>)
    ensures |ks| == |c|
    ensures forall i :: 0 <= i < |c| ==> ks[i] == c[i].0
  {
    seq(|c|, i requires 0 <= i < |c| => c[i].0)
  }

  /** No syllable is listed twice. */
  predicate KeysDistinct(c: Counts) {
    forall i, j :: 0 <= i < j < |c| ==> c[i].0 != c[j].0
  }

  /** How often syllable `s` has been tallied; a syllable never seen counts 0. */
  function Lookup(c: Counts, s: string): nat {
    if c == [] then 0
    else if c[0].0 == s then c[0].1
    else Lookup(c[1..], s)
  }

  /** `syllableCounts[s] = (syllableCounts[s] || 0) + 1`: a new key goes to the end. */
  function Bump(c: Counts, s: string): Counts {
    if c == [] then [(s, 1)]
    else if c[0].0 == s then [(s, c[0].1 + 1)] + c[1..]
    else [c[0]] + Bump(c[1..], s)
  }

  lemma KeysCons(x: (string, nat), rest: Counts)
    ensures Keys([x] + rest) == [x.0] + Keys(rest)
  {
  }

  /** One increment keeps the order of the keys and appends `s` when it is new. */
  lemma {:induction false} BumpKeys(c: Counts, s: string)
    ensures Keys(Bump(c, s)) == if s in Keys(c) then Keys(c) else Keys(c) + [s]
  {
    if c != [] {
      var rest := c[1..];
      assert c == [c[0]] + rest;
      KeysCons(c[0], rest);
      if c[0].0 != s {
        BumpKeys(rest, s);
        KeysCons(c[0], Bump(rest, s));
      } else {
        KeysCons((s, c[0].1 + 1), rest);
      }
    }
  }

  /** One increment changes the count of `s` only, by one. */
  lemma {:induction false} BumpLookup(c: Counts, s: string)
    ensures forall t :: Lookup(Bump(c, s), t) == Lookup(c, t) + (if t == s then 1 else 0)
  {
    if c != [] && c[0].0 != s {
      BumpLookup(c[1..], s);
      assert Bump(c, s)[1..] == Bump(c[1..], s);
    } else if c != [] {
      assert Bump(c, s)[1..] == c[1..];
    }
  }

  /** One increment never lists a key twice. */
  lemma BumpDistinct(c: Counts, s: string)
    requires KeysDistinct(c)
    ensures KeysDistinct(Bump(c, s))
  {
    BumpKeys(c, s);
    var b := Bump(c, s);
    forall i, j | 0 <= i < j < |b| ensures b[i].0 != b[j].0 {
      assert b[i].0 == Keys(b)[i] && b[j].0 == Keys(b)[j];
      assert Keys(b)[i] == c[i].0;
      if j < |c| {
        assert Keys(b)[j] == c[j].0;
      } else {
        assert Keys(b)[j] == s && s !in Keys(c);
        assert Keys(c)[i] == c[i].0;
      }
    }
  }

  /** One increment changes the count of `s` only, and keeps the order of the keys. */
  lemma BumpEffect(c: Counts, s: string)
    requires KeysDistinct(c)
    ensures KeysDistinct(Bump(c, s))
    ensures forall t :: Lookup(Bump(c, s), t) == Lookup(c, t) + (if t == s then 1 else 0)
    ensures Keys(Bump(c, s)) == if s in Keys(c) then Keys(c) else Keys(c) + [s]
  {
    BumpKeys(c, s);
    BumpLookup(c, s);
    BumpDistinct(c, s);
  }

  /** The inner `forEach` over one guess's syllables. */
  function TallyList(c: Counts, syllables: seq<string>): Counts {
    if syllables == [] then c
    else Bump(TallyList(c, syllables[..|syllables| - 1]), syllables[|syllables| - 1])
  }

  /** Both `forEach` loops over every guess. */
  function TallyGuesses(c: Counts, guesses: seq<Guess>): Counts {
    if guesses == [] then c
    else TallyList(TallyGuesses(c, guesses[..|guesses| - 1]), guesses[|guesses| - 1].syllableList)
  }

  /** How often `s` occurs across the guesses' syllable lists. */
  function Occurrences(guesses: seq<Guess>, s: string): nat {
    if guesses == [] then 0
    else Occurrences(guesses[..|guesses| - 1], s) + multiset(guesses[|guesses| - 1].syllableList)[s]
  }

  /** One guess adds the number of times each syllable occurs in its list. */
  lemma {:induction false} TallyListLookup(c: Counts, syllables: seq<string>)
    ensures forall t :: Lookup(TallyList(c, syllables), t) == Lookup(c, t) + multiset(syllables)[t]
    decreases |syllables|
  {
    if syllables != [] {
      var init, last := syllables[..|syllables| - 1], syllables[|syllables| - 1];
      TallyListLookup(c, init);
      BumpLookup(TallyList(c, init), last);
      assert syllables == init + [last];
      assert multiset(syllables) == multiset(init) + multiset{last};
    }
  }

  /** One guess keeps the stored keys in front, in their order. */
  lemma {:induction false} TallyListKeys(c: Counts, syllables: seq<string>)
    ensures Keys(c) <= Keys(TallyList(c, syllables))
    decreases |syllables|
  {
    if syllables != [] {
      var init, last := syllables[..|syllables| - 1], syllables[|syllables| - 1];
      TallyListKeys(c, init);
      BumpKeys(TallyList(c, init), last);
    }
  }

  /** One guess never lists a key twice. */
  lemma {:induction false} TallyListDistinct(c: Counts, syllables: seq<string>)
    requires KeysDistinct(c)
    ensures KeysDistinct(TallyList(c, syllables))
    decreases |syllables|
  {
    if syllables != [] {
      var init, last := syllables[..|syllables| - 1], syllables[|syllables| - 1];
      TallyListDistinct(c, init);
      BumpDistinct(TallyList(c, init), last);
    }
  }

  /** The three effects of one guess together. */
  lemma TallyListEffect(c: Counts, syllables: seq<string>)
    requires KeysDistinct(c)
    ensures KeysDistinct(TallyList(c, syllables))
    ensures forall t :: Lookup(TallyList(c, syllables), t) == Lookup(c, t) + multiset(syllables)[t]
    ensures Keys(c) <= Keys(TallyList(c, syllables))
  {
    TallyListLookup(c, syllables);
    TallyListKeys(c, syllables);
    TallyListDistinct(c, syllables);
  }

  /**
   * After the tally, every syllable's count has grown by exactly the number of
   * times it occurs across the guesses; keys already stored keep their order.
   */
  lemma {:induction false} TallyGuessesEffect(c: Counts, guesses: seq<Guess>)
    requires KeysDistinct(c)
    ensures KeysDistinct(TallyGuesses(c, guesses))
    ensures forall t :: Lookup(TallyGuesses(c, guesses), t) == Lookup(c, t) + Occurrences(guesses, t)
    ensures Keys(c) <= Keys(TallyGuesses(c, guesses))
    decreases |guesses|
  {
    if guesses != [] {
      var init := guesses[..|guesses| - 1];
      TallyGuessesEffect(c, init);
      TallyListEffect(TallyGuesses(c, init), guesses[|guesses| - 1].syllableList);
    }
  }

  /** The nested `forEach` loops of script.js:395-399. */
  method TallySyllables(c: Counts, guesses: seq<Guess>) returns (counts: Counts)
    ensures counts == TallyGuesses(c, guesses)
  {
    counts := c;
    for g := 0 to |guesses|
      invariant counts == TallyGuesses(c, guesses[..g])
    {
      var syllables := guesses[g].syllableList;
      ghost var before := counts;
      for k := 0 to |syllables|
        invariant counts == TallyList(before, syllables[..k])
      {
        assert syllables[..k + 1][..k] == syllables[..k];
        counts := Bump(counts, syllables[k]);
      }
      assert syllables[..|syllables|] == syllables;
      assert guesses[..g + 1][..g] == guesses[..g];
    }
    assert guesses[..|guesses|] == guesses;
  }

  // ---------------------------------------------------------------------------
  // The most common syllable (script.js:403-409)
  // ---------------------------------------------------------------------------

  /** `mostCommon` after scanning `entries`: a strictly greater count replaces it. */
  function MostCommonOf(entries: Counts): (Option<string>, nat) {
    if entries == [] then (None, 0)
    else
      var m := MostCommonOf(entries[..|entries| - 1]);
      var last := entries[|entries| - 1];
      if last.1 > m.1 then (Some(last.0), last.1) else m
  }

  /** Entry `k` holds the greatest count and no earlier entry reaches it. */
  predicate FirstMaximum(entries: Counts, k: int) {
    && 0 <= k < |entries|
    && (forall j :: 0 <= j < |entries| ==> entries[j].1 <= entries[k].1)
    && (forall j :: 0 <= j < k ==> entries[j].1 < entries[k].1)
  }

  /** A named syllable is the first entry of the greatest count, with that count. */
  ghost predicate NamesFirstMaximum(entries: Counts, m: (Option<string>, nat)) {
    m.0.Some? ==> exists k :: FirstMaximum(entries, k) && entries[k] == (m.0.value, m.1)
  }

  /**
   * The scan names the first entry with the greatest count, or nothing with
   * count 0 when every count is 0.
   */
  lemma {:induction false} MostCommonIsFirstMaximum(entries: Counts)
    ensures var m := MostCommonOf(entries);
      && (m.0.None? <==> forall j :: 0 <= j < |entries| ==> entries[j].1 == 0)
      && (m.0.None? ==> m.1 == 0)
      && NamesFirstMaximum(entries, m)
    decreases |entries|
  {
    if entries != [] {
      var init, last := entries[..|entries| - 1], entries[|entries| - 1];
      MostCommonIsFirstMaximum(init);
      var m := MostCommonOf(init);
      assert forall j :: 0 <= j < |init| ==> init[j] == entries[j];
      if last.1 > m.1 {
        if m.0.Some? {
          var k :| FirstMaximum(init, k) && init[k] == (m.0.value, m.1);
        }
        assert FirstMaximum(entries, |entries| - 1);
      } else if m.0.Some? {
        var k :| FirstMaximum(init, k) && init[k] == (m.0.value, m.1);
        assert FirstMaximum(entries, k);
      }
    }
  }

  /** The `for ... of Object.entries(syllableCounts)` loop. */
  method MostCommonSyllable(entries: Counts) returns (syllable: Option<string>, count: nat)
    ensures (syllable, count) == MostCommonOf(entries)
  {
    syllable, count := None, 0;
    for i := 0 to |entries|
      invariant (syllable, count) == MostCommonOf(entries[..i])
    {
      assert entries[..i + 1][..i] == entries[..i];
      if entries[i].1 > count {
        syllable, count := Some(entries[i].0), entries[i].1;
      }
    }
    assert entries[..|entries|] == entries;
  }

  // ---------------------------------------------------------------------------
  // Longest and rarest word (script.js:357-378)
  // ---------------------------------------------------------------------------

  /** The `reduce` of script.js:359-361: a strictly longer word replaces the current one. */
  function LongestWordOf(start: string, guesses: seq<Guess>): string {
    if guesses == [] then start
    else
      var longest := LongestWordOf(start, guesses[..|guesses| - 1]);
      var word := guesses[|guesses| - 1].word;
      if |word| > |longest| then word else longest
  }

  /** Guess `k` has word `r`, longer than `start` and than every earlier guess's word. */
  predicate FirstLongestAt(start: string, guesses: seq<Guess>, k: int, r: string) {
    && 0 <= k < |guesses| && r == guesses[k].word && |start| < |r|
    && forall j :: 0 <= j < k ==> |guesses[j].word| < |r|
  }

  /**
   * The result is at least as long as the stored word and every guess; it is
   * the stored word or the first guess of the greatest length, longer than it.
   */
  lemma {:induction false} LongestWordIsFirstLongest(start: string, guesses: seq<Guess>)
    ensures var r := LongestWordOf(start, guesses);
      && |start| <= |r|
      && (forall j :: 0 <= j < |guesses| ==> |guesses[j].word| <= |r|)
      && (r == start || exists k :: FirstLongestAt(start, guesses, k, r))
    decreases |guesses|
  {
    if guesses != [] {
      var init := guesses[..|guesses| - 1];
      LongestWordIsFirstLongest(start, init);
      assert forall j :: 0 <= j < |init| ==> init[j] == guesses[j];
      var r := LongestWordOf(start, init);
      if r != start && LongestWordOf(start, guesses) == r {
        var k :| FirstLongestAt(start, init, k, r);
        assert FirstLongestAt(start, guesses, k, r);
      } else if LongestWordOf(start, guesses) != r {
        assert FirstLongestAt(start, guesses, |guesses| - 1, LongestWordOf(start, guesses));
      }
    }
  }

  /** `{ word, frequency }`; a word of "" stands for the empty object `{}`. */
  datatype WordRecord = WordRecord(word: string, frequency: real)

  /** The `reduce` of script.js:369-374: a record without a word, or a rarer guess, is replaced. */
  function RarestOf(start: WordRecord, guesses: seq<Guess>): WordRecord {
    if guesses == [] then start
    else
      var rarest := RarestOf(start, guesses[..|guesses| - 1]);
      var g := guesses[|guesses| - 1];
      if rarest.word == "" || g.frequency < rarest.frequency then WordRecord(g.word, g.frequency) else rarest
  }

  /** Guesses reach the statistics only once accepted, with a word of at least four letters. */
  predicate WordsPresent(guesses: seq<Guess>) {
    forall j :: 0 <= j < |guesses| ==> guesses[j].word != ""
  }

  /** Guess `k` gives record `r`, strictly rarer than every earlier guess. */
  predicate FirstRarestAt(guesses: seq<Guess>, k: int, r: WordRecord) {
    && 0 <= k < |guesses| && r == WordRecord(guesses[k].word, guesses[k].frequency)
    && forall j :: 0 <= j < k ==> r.frequency < guesses[j].frequency
  }

  /**
   * Over accepted guesses the result is no more frequent than the stored word
   * or any guess, and it is the stored record or the first guess of the
   * lowest frequency.
   */
  lemma {:induction false} RarestIsFirstRarest(start: WordRecord, guesses: seq<Guess>)
    requires WordsPresent(guesses)
    ensures var r := RarestOf(start, guesses);
      && (start.word != "" || guesses != [] ==> r.word != "")
      && (start.word != "" ==> r.frequency <= start.frequency)
      && (start.word != "" && r != start ==> r.frequency < start.frequency)
      && (forall j :: 0 <= j < |guesses| ==> r.frequency <= guesses[j].frequency)
      && (r == start || exists k :: FirstRarestAt(guesses, k, r))
    decreases |guesses|
  {
    if guesses != [] {
      var init := guesses[..|guesses| - 1];
      assert forall j :: 0 <= j < |init| ==> init[j] == guesses[j];
      RarestIsFirstRarest(start, init);
      var r := RarestOf(start, init);
      if r != start && RarestOf(start, guesses) == r {
        var k :| FirstRarestAt(init, k, r);
        assert FirstRarestAt(guesses, k, r);
      } else if RarestOf(start, guesses) != r {
        assert FirstRarestAt(guesses, |guesses| - 1, RarestOf(start, guesses));
      }
    }
  }

  // ---------------------------------------------------------------------------
  // Longest syllable (script.js:380-389)
  // ---------------------------------------------------------------------------

  /** `{ syllable, word, display }`; a syllable of "" stands for the empty object `{}`. */
  datatype SyllableRecord = SyllableRecord(syllable: string, word: string, display: string)

  function Bold(s: string): string {
    "<strong>" + s + "</strong>"
  }

  /** The guess's syllables joined by middle dots, with every copy of `syl` in bold (script.js:386). */
  function Display(syllables: seq<string>, syl: string): string {
    JoinWith(seq(|syllables|, i requires 0 <= i < |syllables| => if syllables[i] == syl then Bold(syllables[i]) else syllables[i]), "\U{00B7}")
  }

  /** The record stored for syllable `i` of a guess. */
  function RecordAt(g: Guess, i: nat): SyllableRecord
    requires i < |g.syllableList|
  {
    SyllableRecord(g.syllableList[i], g.word, Display(g.syllableList, g.syllableList[i]))
  }

  /** A syllable beats a record without a syllable, or one strictly shorter. */
  predicate Beats(syl: string, r: SyllableRecord) {
    r.syllable == "" || |syl| > |r.syllable|
  }

  /**
   * As written: every syllable is compared with the record read before the
   * loops (`previous`), never with what the loops stored since, so the last
   * syllable that beats `previous` is what remains stored.
   */
  function AsWrittenInGuess(previous: SyllableRecord, stored: SyllableRecord, g: Guess, k: nat): SyllableRecord
    requires k <= |g.syllableList|
  {
    if k == 0 then stored
    else
      var r := AsWrittenInGuess(previous, stored, g, k - 1);
      if Beats(g.syllableList[k - 1], previous) then RecordAt(g, k - 1) else r
  }

  function LongestSyllableAsWritten(previous: SyllableRecord, guesses: seq<Guess>): SyllableRecord {
    if guesses == [] then previous
    else
      var g := guesses[|guesses| - 1];
      AsWrittenInGuess(previous, LongestSyllableAsWritten(previous, guesses[..|guesses| - 1]), g, |g.syllableList|)
  }

  /** Corrected: each syllable is compared with the best record so far. */
  function LongestInGuess(best: SyllableRecord, g: Guess, k: nat): SyllableRecord
    requires k <= |g.syllableList|
  {
    if k == 0 then best
    else
      var r := LongestInGuess(best, g, k - 1);
      if Beats(g.syllableList[k - 1], r) then RecordAt(g, k - 1) else r
  }

  function LongestSyllableOf(previous: SyllableRecord, guesses: seq<Guess>): SyllableRecord {
    if guesses == [] then previous
    else
      var g := guesses[|guesses| - 1];
      LongestInGuess(LongestSyllableOf(previous, guesses[..|guesses| - 1]), g, |g.syllableList|)
  }

  /** Syllable `i` of guess `j` is stored, with that guess's word and display. */
  predicate FromGuesses(r: SyllableRecord, guesses: seq<Guess>) {
    exists j, i :: 0 <= j < |guesses| && 0 <= i < |guesses[j].syllableList| && r == RecordAt(guesses[j], i)
  }

  lemma {:induction false} LongestInGuessIsLongest(best: SyllableRecord, g: Guess, k: nat)
    requires k <= |g.syllableList|
    ensures var r := LongestInGuess(best, g, k);
      && |best.syllable| <= |r.syllable|
      && (forall i :: 0 <= i < k ==> |g.syllableList[i]| <= |r.syllable|)
      && (r == best || exists i :: 0 <= i < k && r == RecordAt(g, i))
  {
    if k > 0 {
      LongestInGuessIsLongest(best, g, k - 1);
    }
  }

  /**
   * The corrected record is at least as long as the stored one and as every
   * syllable of every guess, and is the stored one or a syllable of a guess.
   */
  lemma {:induction false} LongestSyllableIsLongest(previous: SyllableRecord, guesses: seq<Guess>)
    ensures var r := LongestSyllableOf(previous, guesses);
      && |previous.syllable| <= |r.syllable|
      && (forall j, i :: 0 <= j < |guesses| && 0 <= i < |guesses[j].syllableList| ==>
            |guesses[j].syllableList[i]| <= |r.syllable|)
      && (r == previous || FromGuesses(r, guesses))
    decreases |guesses|
  {
    if guesses != [] {
      var init, g := guesses[..|guesses| - 1], guesses[|guesses| - 1];
      LongestSyllableIsLongest(previous, init);
      var b := LongestSyllableOf(previous, init);
      LongestInGuessIsLongest(b, g, |g.syllableList|);
      assert forall j :: 0 <= j < |init| ==> init[j] == guesses[j];
      var r := LongestSyllableOf(previous, guesses);
      if r != previous {
        if r == b {
          var j, i :| 0 <= j < |init| && 0 <= i < |init[j].syllableList| && b == RecordAt(init[j], i);
          assert r == RecordAt(guesses[j], i);
        } else {
          var i :| 0 <= i < |g.syllableList| && r == RecordAt(g, i);
          assert r == RecordAt(guesses[|guesses| - 1], i);
        }
      }
    }
  }

  /** Syllable `i` of guess `g` beats the record read before the loops. */
  predicate BeatsIn(previous: SyllableRecord, g: Guess, i: int) {
    0 <= i < |g.syllableList| && Beats(g.syllableList[i], previous)
  }

  /** Syllable `i` of guess `j` beats the record read before the loops. */
  predicate BeatsAt(previous: SyllableRecord, guesses: seq<Guess>, j: int, i: int) {
    0 <= j < |guesses| && BeatsIn(previous, guesses[j], i)
  }

  /** Syllable `i` of guess `j` beats `previous`, and no syllable after it, in guess order, does. */
  ghost predicate LastBeatingAt(previous: SyllableRecord, guesses: seq<Guess>, j: int, i: int) {
    && BeatsAt(previous, guesses, j, i)
    && forall j', i' :: BeatsAt(previous, guesses, j', i') ==> j' < j || (j' == j && i' <= i)
  }

  /** Within one guess, as written, the last syllable that beats `previous` is stored, or `stored` stays. */
  lemma {:induction false} AsWrittenInGuessIsLastBeating(previous: SyllableRecord, stored: SyllableRecord, g: Guess, k: nat)
    requires k <= |g.syllableList|
    ensures var r := AsWrittenInGuess(previous, stored, g, k);
      && ((forall i :: 0 <= i < k ==> !BeatsIn(previous, g, i)) ==> r == stored)
      && ((exists i :: 0 <= i < k && BeatsIn(previous, g, i)) ==>
            exists i :: 0 <= i < k && BeatsIn(previous, g, i) && r == RecordAt(g, i)
              && forall i' :: i < i' < k ==> !BeatsIn(previous, g, i'))
  {
    if k > 0 {
      AsWrittenInGuessIsLastBeating(previous, stored, g, k - 1);
      var r := AsWrittenInGuess(previous, stored, g, k);
      var p := AsWrittenInGuess(previous, stored, g, k - 1);
      if BeatsIn(previous, g, k - 1) {
        assert r == RecordAt(g, k - 1);
        assert forall i' :: k - 1 < i' < k ==> !BeatsIn(previous, g, i');
      } else {
        assert r == p;
        if exists i :: 0 <= i < k && BeatsIn(previous, g, i) {
          var i :| 0 <= i < k - 1 && BeatsIn(previous, g, i) && p == RecordAt(g, i)
            && forall i' :: i < i' < k - 1 ==> !BeatsIn(previous, g, i');
          assert forall i' :: i < i' < k ==> !BeatsIn(previous, g, i');
        }
      }
    }
  }

  /**
   * As written, the stored record is `previous` when no syllable of any guess
   * beats it, and otherwise the last syllable in guess order that beats it.
   */
  lemma {:induction false} LongestSyllableAsWrittenIsLastBeating(previous: SyllableRecord, guesses: seq<Guess>)
    ensures var r := LongestSyllableAsWritten(previous, guesses);
      && ((forall j, i :: !BeatsAt(previous, guesses, j, i)) ==> r == previous)
      && ((exists j, i :: BeatsAt(previous, guesses, j, i)) ==>
            exists j, i :: LastBeatingAt(previous, guesses, j, i) && r == RecordAt(guesses[j], i))
    decreases |guesses|
  {
    if guesses != [] {
      var n := |guesses|;
      var init, g := guesses[..n - 1], guesses[n - 1];
      LongestSyllableAsWrittenIsLastBeating(previous, init);
      var s := LongestSyllableAsWritten(previous, init);
      AsWrittenInGuessIsLastBeating(previous, s, g, |g.syllableList|);
      var r := LongestSyllableAsWritten(previous, guesses);
      assert forall j, i :: BeatsAt(previous, init, j, i) <==> j < n - 1 && BeatsAt(previous, guesses, j, i);
      if exists i :: 0 <= i < |g.syllableList| && BeatsIn(previous, g, i) {
        var i :| 0 <= i < |g.syllableList| && BeatsIn(previous, g, i) && r == RecordAt(g, i)
          && forall i' :: i < i' < |g.syllableList| ==> !BeatsIn(previous, g, i');
        assert LastBeatingAt(previous, guesses, n - 1, i);
      } else {
        assert forall i :: !BeatsIn(previous, g, i);
        if exists j, i :: BeatsAt(previous, init, j, i) {
          var j, i :| LastBeatingAt(previous, init, j, i) && s == RecordAt(init[j], i);
          assert LastBeatingAt(previous, guesses, j, i);
        }
      }
    }
  }

  /**
   * With nothing stored, the single guess "abcd" split as ["abc", "d"] leaves
   * "d" stored as written, though "abc" is longer; the corrected pass keeps "abc".
   */
  lemma LastSyllableWinsAsWritten()
    ensures var none := SyllableRecord("", "", "");
      var guesses := [Guess("abcd", 1, 2, 1.0, ["abc", "d"])];
      && LongestSyllableAsWritten(none, guesses).syllable == "d"
      && LongestSyllableOf(none, guesses).syllable == "abc"
  {
    var none := SyllableRecord("", "", "");
    var g := Guess("abcd", 1, 2, 1.0, ["abc", "d"]);
    assert [g][..0] == [];
    assert AsWrittenInGuess(none, none, g, 2) == RecordAt(g, 1);
    assert LongestInGuess(none, g, 1) == RecordAt(g, 0);
    assert LongestInGuess(none, g, 2) == RecordAt(g, 0);
  }

  /**
   * The nested `forEach` loops of script.js:381-389: each syllable is compared
   * with `previous`, read once before the loops, and `best` is what they leave
   * stored.
   */
  method ScanLongestSyllable(previous: SyllableRecord, guesses: seq<Guess>) returns (best: SyllableRecord)
    ensures best == LongestSyllableAsWritten(previous, guesses)
  {
    best := previous;
    for j := 0 to |guesses|
      invariant best == LongestSyllableAsWritten(previous, guesses[..j])
    {
      var g := guesses[j];
      ghost var before := best;
      for i := 0 to |g.syllableList|
        invariant best == AsWrittenInGuess(previous, before, g, i)
      {
        var syl := g.syllableList[i];
        if previous.syllable == "" || |syl| > |previous.syllable| {
          best := SyllableRecord(syl, g.word, Display(g.syllableList, syl));
        }
      }
      assert guesses[..j + 1][..j] == guesses[..j];
    }
    assert guesses[..|guesses|] == guesses;
  }

  // ---------------------------------------------------------------------------
  // The whole of endGame
  // ---------------------------------------------------------------------------

  /** The values `endGame` keeps in local storage; an absent numeric key reads as 0. */
  datatype Stats = Stats(
    processed: set<string>,            // the `gameStatsProcessed_<id>` keys
    bestScores: map<string, int>,      // `bestScore_<letters>`
    gamesCompleted: nat,
    totalValidWords: nat,
    totalSyllableCount: nat,
    totalScore: int,
    longestWord: string,
    rarestWord: WordRecord,
    longestSyllable: SyllableRecord,
    syllableCounts: Counts,
    mostCommon: (Option<string>, nat))

  /** The syllables of all guesses together, added to the stored total (script.js:350-352). */
  function SumSyllables(guesses: seq<Guess>): nat {
    if guesses == [] then 0 else SumSyllables(guesses[..|guesses| - 1]) + guesses[|guesses| - 1].syllables
  }

  /** script.js:333-341: a non-custom puzzle records a score when none is stored or it beats the stored one. */
  function BestScoreAfter(best: map<string, int>, puzzle: Option<Puzzle>, score: int): map<string, int> {
    if puzzle.Some? && !puzzle.value.isCustom then
      var key := puzzle.value.letters;
      if key !in best || score > best[key] then best[key := score] else best
    else best
  }

  /** The stored best score is the greatest of the old one and this game's, and nothing else changes. */
  lemma BestScoreIsMaximum(best: map<string, int>, puzzle: Option<Puzzle>, score: int)
    ensures var after := BestScoreAfter(best, puzzle, score);
      && after.Keys == (if puzzle.Some? && !puzzle.value.isCustom then best.Keys + {puzzle.value.letters} else best.Keys)
      && (forall k :: k in best && (puzzle.None? || puzzle.value.isCustom || k != puzzle.value.letters) ==> after[k] == best[k])
      && (puzzle.Some? && !puzzle.value.isCustom ==>
            var key := puzzle.value.letters;
            && score <= after[key]
            && (key in best ==> best[key] <= after[key])
            && (after[key] == score || after[key] == best[key]))
  {
  }

  /** What `endGame` leaves stored. */
  function EndGameSpec(stats: Stats, gameId: string, puzzle: Option<Puzzle>, guesses: seq<Guess>, score: int): Stats {
    if gameId in stats.processed then stats
    else
      var longestNow := LongestWordOf(stats.longestWord, guesses);
      var rarestNow := RarestOf(stats.rarestWord, guesses);
      var counts := TallyGuesses(stats.syllableCounts, guesses);
      Stats(
        stats.processed + {gameId},
        BestScoreAfter(stats.bestScores, puzzle, score),
        stats.gamesCompleted + 1,
        stats.totalValidWords + |guesses|,
        stats.totalSyllableCount + SumSyllables(guesses),
        stats.totalScore + score,
        if |longestNow| > |stats.longestWord| then longestNow else stats.longestWord,
        if stats.rarestWord.word == "" || rarestNow.frequency < stats.rarestWord.frequency then rarestNow
        else stats.rarestWord,
        LongestSyllableAsWritten(stats.longestSyllable, guesses),
        counts,
        MostCommonOf(counts))
  }

  /** A game already processed changes nothing, so running `endGame` twice is running it once. */
  lemma EndGameOnce(stats: Stats, gameId: string, puzzle: Option<Puzzle>, guesses: seq<Guess>, score: int)
    ensures var once := EndGameSpec(stats, gameId, puzzle, guesses, score);
      && gameId in once.processed
      && EndGameSpec(once, gameId, puzzle, guesses, score) == once
  {
  }

  /** Stored statistics whose tally lists each syllable once. */
  predicate ValidStats(stats: Stats) {
    KeysDistinct(stats.syllableCounts)
  }

  /**
   * A game not yet processed adds one game, its guesses, syllables and score
   * to the totals; the stored longest word, rarest word and longest syllable
   * become the results of the three reductions; each syllable's count grows
   * by its occurrences in the guesses, and the most common syllable is the
   * first entry of the greatest count.
   */
  lemma {:induction false} EndGameEffect(stats: Stats, gameId: string, puzzle: Option<Puzzle>, guesses: seq<Guess>, score: int)
    requires ValidStats(stats) && gameId !in stats.processed && WordsPresent(guesses)
    ensures var after := EndGameSpec(stats, gameId, puzzle, guesses, score);
      && ValidStats(after)
      && after.processed == stats.processed + {gameId}
      && after.gamesCompleted == stats.gamesCompleted + 1
      && after.totalValidWords == stats.totalValidWords + |guesses|
      && after.totalScore == stats.totalScore + score
      && after.longestWord == LongestWordOf(stats.longestWord, guesses)
      && after.rarestWord == RarestOf(stats.rarestWord, guesses)
      && after.longestSyllable == LongestSyllableAsWritten(stats.longestSyllable, guesses)
      && (after.longestSyllable == stats.longestSyllable || FromGuesses(after.longestSyllable, guesses))
      && (forall t :: Lookup(after.syllableCounts, t) == Lookup(stats.syllableCounts, t) + Occurrences(guesses, t))
      && Keys(stats.syllableCounts) <= Keys(after.syllableCounts)
      && NamesFirstMaximum(after.syllableCounts, after.mostCommon)
  {
    LongestWordIsFirstLongest(stats.longestWord, guesses);
    RarestIsFirstRarest(stats.rarestWord, guesses);
    TallyGuessesEffect(stats.syllableCounts, guesses);
    MostCommonIsFirstMaximum(TallyGuesses(stats.syllableCounts, guesses));
    LongestSyllableAsWrittenIsLastBeating(stats.longestSyllable, guesses);
  }

  /** `endGame()` on the stored statistics, the game's identifier, puzzle, guesses and score. */
  method EndGame(stats: Stats, gameId: string, puzzle: Option<Puzzle>, guesses: seq<Guess>, score: int)
    returns (after: Stats)
    ensures after == EndGameSpec(stats, gameId, puzzle, guesses, score)
  {
    if gameId in stats.processed {
      return stats;
    }
    after := RecordGame(stats, gameId, puzzle, guesses, score);
  }

  /** The body of `if (!alreadyProcessed)` (script.js:330-424). */
  method RecordGame(stats: Stats, gameId: string, puzzle: Option<Puzzle>, guesses: seq<Guess>, score: int)
    returns (after: Stats)
    requires gameId !in stats.processed
    ensures after == EndGameSpec(stats, gameId, puzzle, guesses, score)
  {
    ghost var spec := EndGameSpec(stats, gameId, puzzle, guesses, score);
    var best := stats.bestScores;
    if puzzle.Some? && !puzzle.value.isCustom {
      var key := puzzle.value.letters;
      if key !in best || score > best[key] {
        best := best[key := score];
      }
    }
    assert best == spec.bestScores;
    var longestNow := LongestWordOf(stats.longestWord, guesses);
    var longest := if |longestNow| > |stats.longestWord| then longestNow else stats.longestWord;
    var rarestNow := RarestOf(stats.rarestWord, guesses);
    var rarest := stats.rarestWord;
    if rarest.word == "" || rarestNow.frequency < rarest.frequency {
      rarest := rarestNow;
    }
    assert longest == spec.longestWord;
    assert rarest == spec.rarestWord;
    var longestSyllable := ScanLongestSyllable(stats.longestSyllable, guesses);
    var counts := TallySyllables(stats.syllableCounts, guesses);
    var mostCommon, mostCount := MostCommonSyllable(counts);
    assert longestSyllable == spec.longestSyllable;
    assert counts == spec.syllableCounts;
    assert (mostCommon, mostCount) == spec.mostCommon;
    after := Stats(
      stats.processed + {gameId}, best,
      stats.gamesCompleted + 1, stats.totalValidWords + |guesses|,
      stats.totalSyllableCount + SumSyllables(guesses), stats.totalScore + score,
      longest, rarest, longestSyllable, counts, (mostCommon, mostCount));
  }
}
