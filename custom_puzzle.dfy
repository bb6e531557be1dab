/**
 * `validateAllRowsAndBuildPuzzle` (script.js:1211-1273): the checks a custom
 * puzzle passes before it is built. The form fields are values, and the
 * word-info request is a function from a word to its verdict.
 */
module CustomPuzzle {
  import opened Wrappers
  import opened Strings
  import opened GameRules

  /** One stage row of the form: its rule and syllable selections and the raw word. */
  datatype Row = Row(rule: int, syllables: int, wordRaw: string)

  /** What the word-info request says about a word. */
  datatype WordCheck = WordCheck(isValid: bool, syllables: int)

  datatype StageFault = Duplicate | TooShort | RuleNotMet | InvalidWord | SyllableMismatch

  /** Why no puzzle was built: the letters, or the first stage that failed and how. */
  datatype BuildError = BadLetters | StageError(stage: nat, fault: StageFault)

  datatype Built = Built(letters: string, inputsEnabled: seq<int>, syllablesRequired: seq<int>, validWords: seq<string>)

  /** The puzzle letters as the form reads them: lower-cased, then trimmed (script.js:1212). */
  function Letters(raw: string): string {
    Trim(Lower(raw))
  }

  /** A row's word as the form reads it: trimmed, then lower-cased (script.js:1229). */
  function RowWord(row: Row): string {
    Lower(Trim(row.wordRaw))
  }

  /** The `${rule}-${syllables}` combination a stage claims. */
  function Combo(row: Row): (int, int) {
    (row.rule, row.syllables)
  }

  /** No two of the first `n` rows claim the same rule and syllable count. */
  predicate CombosDistinctBefore(rows: seq<Row>, n: nat) {
    forall i, j :: 0 <= i < j < n && j < |rows| ==> Combo(rows[i]) != Combo(rows[j])
  }

  predicate CombosDistinct(rows: seq<Row>) {
    CombosDistinctBefore(rows, |rows|)
  }

  /** The checks on one row after the duplicate check, in order (script.js:1239-1266). */
  function RowFault(letters: string, row: Row, lookup: string -> WordCheck): Option<StageFault> {
    var word := RowWord(row);
    if |word| < 3 then Some(TooShort)
    else if !PassesRule(word, letters, row.rule) then Some(RuleNotMet)
    else if !lookup(word).isValid then Some(InvalidWord)
    else if lookup(word).syllables != row.syllables then Some(SyllableMismatch)
    else None
  }

  /** Each of the first `n` rows passes its own checks. */
  predicate RowsPassBefore(letters: string, rows: seq<Row>, lookup: string -> WordCheck, n: nat) {
    forall i :: 0 <= i < n && i < |rows| ==> RowFault(letters, rows[i], lookup).None?
  }

  predicate RowsPass(letters: string, rows: seq<Row>, lookup: string -> WordCheck) {
    RowsPassBefore(letters, rows, lookup, |rows|)
  }

  /** The three lists hold one entry for each of the first `n` rows. */
  predicate BuiltFromBefore(b: Built, letters: string, rows: seq<Row>, n: nat) {
    && n <= |rows|
    && b.letters == letters
    && |b.inputsEnabled| == |b.syllablesRequired| == |b.validWords| == n
    && forall i :: 0 <= i < n ==>
      && b.inputsEnabled[i] == rows[i].rule
      && b.syllablesRequired[i] == rows[i].syllables
      && b.validWords[i] == RowWord(rows[i])
  }

  /** The three lists a built puzzle holds, one entry per row. */
  predicate BuiltFrom(b: Built, letters: string, rows: seq<Row>) {
    BuiltFromBefore(b, letters, rows, |rows|)
  }

  /** The first `s` rows pass, and row `s` fails with `fault`. */
  predicate FailsAt(letters: string, rows: seq<Row>, lookup: string -> WordCheck, s: nat, fault: StageFault) {
    && s < |rows|
    && CombosDistinctBefore(rows, s) && RowsPassBefore(letters, rows, lookup, s)
    && (fault == Duplicate <==> exists j :: 0 <= j < s && Combo(rows[j]) == Combo(rows[s]))
    && (fault != Duplicate ==> RowFault(letters, rows[s], lookup) == Some(fault))
  }

  /** A row that fails shows that the whole form does not pass. */
  lemma FailsAtRefutes(letters: string, rows: seq<Row>, lookup: string -> WordCheck, s: nat, fault: StageFault)
    requires FailsAt(letters, rows, lookup, s, fault)
    ensures !(CombosDistinct(rows) && RowsPass(letters, rows, lookup))
  {
    if fault == Duplicate {
      var j :| 0 <= j < s && Combo(rows[j]) == Combo(rows[s]);
    }
  }

  /** Passing rows of a built puzzle meet their length and placement checks. */
  lemma BuiltWordsPass(b: Built, letters: string, rows: seq<Row>, lookup: string -> WordCheck)
    requires BuiltFrom(b, letters, rows) && RowsPass(letters, rows, lookup)
    ensures forall i :: 0 <= i < |rows| ==>
      |b.validWords[i]| >= 3 && PassesRule(b.validWords[i], b.letters, b.inputsEnabled[i])
  {
    forall i | 0 <= i < |rows|
      ensures |b.validWords[i]| >= 3 && PassesRule(b.validWords[i], b.letters, b.inputsEnabled[i])
    {
      assert RowFault(letters, rows[i], lookup).None?;
    }
  }

  /** `seen` holds exactly the combinations of the first `n` rows. */
  predicate SeenBefore(seen: set<(int, int)>, rows: seq<Row>, n: nat) {
    && n <= |rows|
    && (forall j :: 0 <= j < n ==> Combo(rows[j]) in seen)
    && (forall c :: c in seen ==> exists j :: 0 <= j < n && Combo(rows[j]) == c)
  }

  /** Adding a new row's combination to `seen` keeps it the set of combinations so far. */
  lemma SeenStep(rows: seq<Row>, seen: set<(int, int)>, i: nat)
    requires i < |rows| && SeenBefore(seen, rows, i)
    ensures SeenBefore(seen + {Combo(rows[i])}, rows, i + 1)
  {
    var seen' := seen + {Combo(rows[i])};
    forall c | c in seen'
      ensures exists j :: 0 <= j < i + 1 && Combo(rows[j]) == c
    {
      if c != Combo(rows[i]) {
        var j :| 0 <= j < i && Combo(rows[j]) == c;
      }
    }
  }

  /** A combination not seen before keeps the rows so far distinct. */
  lemma DistinctStep(rows: seq<Row>, seen: set<(int, int)>, i: nat)
    requires i < |rows| && SeenBefore(seen, rows, i) && Combo(rows[i]) !in seen
    requires CombosDistinctBefore(rows, i)
    ensures CombosDistinctBefore(rows, i + 1)
  {
    forall a, c | 0 <= a < c < i + 1 && c < |rows|
      ensures Combo(rows[a]) != Combo(rows[c])
    {
      if c == i {
        assert Combo(rows[a]) in seen;
      }
    }
  }

  /** A row without a fault keeps the rows so far passing. */
  lemma PassStep(letters: string, rows: seq<Row>, lookup: string -> WordCheck, i: nat)
    requires i < |rows| && RowsPassBefore(letters, rows, lookup, i)
    requires RowFault(letters, rows[i], lookup).None?
    ensures RowsPassBefore(letters, rows, lookup, i + 1)
  {
    forall j | 0 <= j < i + 1 && j < |rows|
      ensures RowFault(letters, rows[j], lookup).None?
    {
      if j < i {
        assert RowsPassBefore(letters, rows, lookup, i);
      }
    }
  }

  /** Pushing a row's rule, syllable count and word extends the three lists by that row. */
  lemma BuiltStep(b: Built, letters: string, rows: seq<Row>, i: nat)
    requires i < |rows| && BuiltFromBefore(b, letters, rows, i)
    ensures BuiltFromBefore(Built(letters, b.inputsEnabled + [rows[i].rule], b.syllablesRequired + [rows[i].syllables],
      b.validWords + [RowWord(rows[i])]), letters, rows, i + 1)
  {
  }

  /** A combination already seen fails the stage as a duplicate. */
  lemma DuplicateStage(letters: string, rows: seq<Row>, lookup: string -> WordCheck, seen: set<(int, int)>, i: nat)
    requires i < |rows| && SeenBefore(seen, rows, i) && Combo(rows[i]) in seen
    requires CombosDistinctBefore(rows, i) && RowsPassBefore(letters, rows, lookup, i)
    ensures FailsAt(letters, rows, lookup, i, Duplicate)
  {
    var j :| 0 <= j < i && Combo(rows[j]) == Combo(rows[i]);
  }

  /** A new combination whose row fails a check fails the stage with that fault. */
  lemma FaultyStage(letters: string, rows: seq<Row>, lookup: string -> WordCheck, seen: set<(int, int)>, i: nat)
    requires i < |rows| && SeenBefore(seen, rows, i) && Combo(rows[i]) !in seen
    requires CombosDistinctBefore(rows, i) && RowsPassBefore(letters, rows, lookup, i)
    requires RowFault(letters, rows[i], lookup).Some?
    ensures FailsAt(letters, rows, lookup, i, RowFault(letters, rows[i], lookup).value)
  {
  }

  /**
   * The stage loop of script.js:1224-1268 for letters already checked: the
   * rows pass exactly when the puzzle is built, one entry per row in each
   * list; otherwise the error names the first failing stage.
   */
  method BuildStages(letters: string, rows: seq<Row>, lookup: string -> WordCheck)
    returns (r: Result<Built, BuildError>)
    ensures r.Success? <==> CombosDistinct(rows) && RowsPass(letters, rows, lookup)
    ensures r.Success? ==> BuiltFrom(r.value, letters, rows)
    ensures r.Failure? ==> r.error.StageError? && FailsAt(letters, rows, lookup, r.error.stage, r.error.fault)
  {
    var seen: set<(int, int)> := {};
    var inputsEnabled, syllablesRequired, validWords := [], [], [];
    for i := 0 to |rows|
      invariant SeenBefore(seen, rows, i)
      invariant CombosDistinctBefore(rows, i) && RowsPassBefore(letters, rows, lookup, i)
      invariant BuiltFromBefore(Built(letters, inputsEnabled, syllablesRequired, validWords), letters, rows, i)
    {
      var combo := Combo(rows[i]);
      if combo in seen {
        DuplicateStage(letters, rows, lookup, seen, i);
        FailsAtRefutes(letters, rows, lookup, i, Duplicate);
        return Failure(StageError(i, Duplicate));
      }
      var word := RowWord(rows[i]);
      var fault := RowFault(letters, rows[i], lookup);
      if fault.Some? {
        FaultyStage(letters, rows, lookup, seen, i);
        FailsAtRefutes(letters, rows, lookup, i, fault.value);
        return Failure(StageError(i, fault.value));
      }
      SeenStep(rows, seen, i);
      DistinctStep(rows, seen, i);
      PassStep(letters, rows, lookup, i);
      BuiltStep(Built(letters, inputsEnabled, syllablesRequired, validWords), letters, rows, i);
      seen := seen + {combo};
      inputsEnabled := inputsEnabled + [rows[i].rule];
      syllablesRequired := syllablesRequired + [rows[i].syllables];
      validWords := validWords + [word];
    }
    return Success(Built(letters, inputsEnabled, syllablesRequired, validWords));
  }

  /**
   * A puzzle is built exactly when the letters are three characters long, no
   * two stages share a rule and syllable count, and every row's word has at
   * least three letters, passes its rule, is a word and has the syllable
   * count asked for; the built puzzle has one entry per row in each list.
   * Otherwise the error names the bad letters or the first failing stage.
   */
  method ValidateAllRowsAndBuildPuzzle(lettersRaw: string, rows: seq<Row>, lookup: string -> WordCheck)
    returns (r: Result<Built, BuildError>)
    ensures r == Failure(BadLetters) <==> |Letters(lettersRaw)| != 3
    ensures r.Success? <==>
      |Letters(lettersRaw)| == 3 && CombosDistinct(rows) && RowsPass(Letters(lettersRaw), rows, lookup)
    ensures r.Success? ==> BuiltFrom(r.value, Letters(lettersRaw), rows)
    ensures r.Success? ==> forall i :: 0 <= i < |rows| ==>
      |r.value.validWords[i]| >= 3 && PassesRule(r.value.validWords[i], r.value.letters, r.value.inputsEnabled[i])
    ensures r.Failure? && r.error.StageError? ==>
      FailsAt(Letters(lettersRaw), rows, lookup, r.error.stage, r.error.fault)
  {
    var letters := Letters(lettersRaw);
    if |letters| != 3 {
      return Failure(BadLetters);
    }
    r := BuildStages(letters, rows, lookup);
    if r.Success? {
      BuiltWordsPass(r.value, letters, rows, lookup);
    }
  }
}
