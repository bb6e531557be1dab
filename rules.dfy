/**
 * The pure game rules of script.js: the placement rule, the rule names, the
 * score, feedback, victory and colour tiers, and the daily-puzzle index.
 */
module GameRules {
  import opened Wrappers
  import opened Strings
  import opened EvenSplitting

  /**
   * The placement switch of script.js:94-111 (repeated at 1170-1175 and
   * 1245-1250): 1 ends with the letters, 2 begins with them, 3 holds them
   * without beginning or ending with them, 4 both begins and ends with them;
   * any other code passes nothing.
   */
  predicate PassesRule(word: string, letters: string, rule: int) {
    match rule
    case 1 => EndsWith(word, letters)
    case 2 => StartsWith(word, letters)
    case 3 => Includes(word, letters) && !StartsWith(word, letters) && !EndsWith(word, letters)
    case 4 => StartsWith(word, letters) && EndsWith(word, letters)
    case _ => false
  }

  /**
   * The placement rule read through positions: where in the word the letters
   * occur. Rule 3 is an occurrence strictly inside the word with none at
   * either end.
   */
  lemma {:induction false} PassesRuleAt(word: string, letters: string, rule: int)
    ensures rule == 1 ==> (PassesRule(word, letters, rule) <==> OccursAt(word, letters, |word| - |letters|))
    ensures rule == 2 ==> (PassesRule(word, letters, rule) <==> OccursAt(word, letters, 0))
    ensures rule == 3 ==> (PassesRule(word, letters, rule) <==>
      (exists i :: 0 < i < |word| - |letters| && OccursAt(word, letters, i)) &&
      !OccursAt(word, letters, 0) && !OccursAt(word, letters, |word| - |letters|))
    ensures rule == 4 ==> (PassesRule(word, letters, rule) <==>
      OccursAt(word, letters, 0) && OccursAt(word, letters, |word| - |letters|))
    ensures rule !in {1, 2, 3, 4} ==> !PassesRule(word, letters, rule)
  {
    IncludesAt(word, letters);
    assert StartsWith(word, letters) <==> OccursAt(word, letters, 0);
    assert EndsWith(word, letters) <==> OccursAt(word, letters, |word| - |letters|);
  }

  /** A word that fully contains the letters has a letter on each side of them. */
  lemma FullyContainsNeedsRoom(word: string, letters: string)
    requires PassesRule(word, letters, 3)
    ensures |word| >= |letters| + 2
  {
    PassesRuleAt(word, letters, 3);
    var i :| 0 < i < |word| - |letters| && OccursAt(word, letters, i);
  }

  /** The wording shown for a placement rule code; unknown codes get a fallback phrase (script.js:549-557). */
  function DescribeRule(rule: int): string {
    match rule
    case 1 => "end with"
    case 2 => "begin with"
    case 3 => "fully contain"
    case 4 => "begin and end with"
    case _ => "follow an unknown rule"
  }

  /** Every rule a word can pass has a description of its own, and the four are different. */
  lemma DescribedRules(word: string, letters: string, rule: int)
    ensures PassesRule(word, letters, rule) ==> DescribeRule(rule) != "follow an unknown rule"
    ensures forall a, b :: 1 <= a < b <= 4 ==> DescribeRule(a) != DescribeRule(b)
  {
  }

  /** A daily or custom puzzle: the letters and, per stage, the rule and the syllable count. */
  datatype Puzzle = Puzzle(letters: string, inputsEnabled: seq<int>, syllablesRequired: seq<int>, isCustom: bool)

  /**
   * `validateGuess` (script.js:87-114): whether the guess meets the current
   * stage's placement rule, and the stage's required syllable count; a stage
   * past the end reads `undefined`, which passes no rule.
   */
  function ValidateGuess(puzzle: Puzzle, stage: int, guess: string): (r: (bool, Option<int>))
    ensures r.0 ==> 0 <= stage < |puzzle.inputsEnabled| && PassesRule(guess, puzzle.letters, puzzle.inputsEnabled[stage])
    ensures r.1.Some? <==> 0 <= stage < |puzzle.syllablesRequired|
    ensures r.1.Some? ==> r.1.value == puzzle.syllablesRequired[stage]
  {
    var placement := 0 <= stage < |puzzle.inputsEnabled| && PassesRule(guess, puzzle.letters, puzzle.inputsEnabled[stage]);
    var required := if 0 <= stage < |puzzle.syllablesRequired| then Some(puzzle.syllablesRequired[stage]) else None;
    (placement, required)
  }

  /** `determineScoreFromFrequency` (script.js:571-577): rarer words score more. */
  function ScoreFromFrequency(frequency: real): (score: int)
    ensures 1 <= score <= 5
    ensures score == 1 <==> frequency >= 100.0
    ensures score == 5 <==> frequency < 0.1
  {
    if frequency >= 100.0 then 1
    else if frequency >= 10.0 then 2
    else if frequency >= 1.0 then 3
    else if frequency >= 0.1 then 4
    else 5
  }

  /** A more frequent word never scores more. */
  lemma ScoreNonIncreasing(f1: real, f2: real)
    requires f1 <= f2
    ensures ScoreFromFrequency(f2) <= ScoreFromFrequency(f1)
  {
  }

  /** The key of the feedback messages for a word of this frequency (script.js:579-585). */
  function FeedbackCategory(frequency: real): string {
    if frequency >= 100.0 then "1"
    else if frequency >= 10.0 then "2"
    else if frequency >= 1.0 then "3"
    else if frequency >= 0.1 then "4"
    else "5"
  }

  /** The feedback category is the score written as a digit. */
  lemma FeedbackIsScore(frequency: real)
    ensures FeedbackCategory(frequency) == [('0' as int + ScoreFromFrequency(frequency)) as char]
  {
  }

  const VictoryKeys: seq<string> := ["10orLower", "15orLower", "20orLower", "25orLower", "30orLower"]

  /** The key of the end-of-game messages for a total score, in bands of five from 10 up (script.js:563-569). */
  function VictoryCategory(score: int): (key: string)
    ensures key in VictoryKeys
  {
    if score <= 10 then "10orLower"
    else if score <= 15 then "15orLower"
    else if score <= 20 then "20orLower"
    else if score <= 25 then "25orLower"
    else "30orLower"
  }

  /** The position of a victory key among the five, the lowest scores first. */
  function VictoryRank(key: string): (r: nat)
    requires key in VictoryKeys
    ensures r < |VictoryKeys| && VictoryKeys[r] == key
  {
    if key == VictoryKeys[0] then 0
    else if key == VictoryKeys[1] then 1
    else if key == VictoryKeys[2] then 2
    else if key == VictoryKeys[3] then 3
    else 4
  }

  /**
   * A higher score never lands in an earlier category, and each category's
   * named bound is an upper bound for the scores below 30 it holds.
   */
  lemma VictoryOrdered(a: int, b: int)
    requires a <= b
    ensures VictoryRank(VictoryCategory(a)) <= VictoryRank(VictoryCategory(b))
    ensures VictoryRank(VictoryCategory(a)) < 4 ==> a <= 10 + 5 * VictoryRank(VictoryCategory(a))
    ensures VictoryRank(VictoryCategory(a)) > 0 ==> a > 5 + 5 * VictoryRank(VictoryCategory(a))
  {
  }

  /** The colour a guess of this score is drawn in; any other code gets the colour of score 2 (script.js:587-596). */
  function ColorForScore(score: int): string {
    match score
    case 1 => "var(--verycommon-word)"
    case 2 => "var(--common-word)"
    case 3 => "var(--uncommon-word)"
    case 4 => "var(--rare-word)"
    case 5 => "var(--ultrarare-word)"
    case _ => "var(--common-word)"
  }

  /** Every score a word can earn gets its own colour; anything else shows as a score of 2. */
  lemma ColorsDistinct(f1: real, f2: real, other: int)
    ensures ScoreFromFrequency(f1) != ScoreFromFrequency(f2) ==>
      ColorForScore(ScoreFromFrequency(f1)) != ColorForScore(ScoreFromFrequency(f2))
    ensures !(1 <= other <= 5) ==> ColorForScore(other) == ColorForScore(2)
  {
  }

  /** JavaScript's `a % b`: the remainder takes the sign of the dividend. */
  function JsRem(a: int, b: int): (r: int)
    requires b > 0
    ensures -b < r < b
    ensures a >= 0 ==> r >= 0
  {
    if a >= 0 then a % b else -((-a) % b)
  }

  /**
   * The index formula of script.js:77, `((d % n) + n) % n`; an empty puzzle
   * list has no index (the source reads `allPuzzles[NaN]`).
   */
  function DailyIndex(dayDiff: int, n: nat): Option<nat> {
    if n == 0 then None
    else
      var i := JsRem(JsRem(dayDiff, n) + n, n);
      Some(i)
  }

  /** `a % n == m` whenever `a == k*n + m` with `0 <= m < n`. */
  lemma ModOf(a: int, n: int, k: int, m: int)
    requires n > 0 && 0 <= m < n && a == k * n + m
    ensures a % n == m
  {
    DivOf(a, n, k, m);
  }

  /**
   * For every day offset, negative ones included, the index lies in the list
   * and is the offset taken modulo the list's length.
   */
  lemma DailyIndexInRange(dayDiff: int, n: nat)
    requires n > 0
    ensures DailyIndex(dayDiff, n).Some?
    ensures DailyIndex(dayDiff, n).value < n
    ensures DailyIndex(dayDiff, n).value == dayDiff % n
  {
    var r := JsRem(dayDiff, n);
    if dayDiff >= 0 {
      ModOf(r + n, n, 1, r);
    } else {
      var q, m := (-dayDiff) / n, (-dayDiff) % n;
      assert -dayDiff == q * n + m;
      if m == 0 {
        ModOf(dayDiff, n, -q, 0);
        ModOf(n, n, 1, 0);
      } else {
        ModOf(dayDiff, n, -q - 1, n - m);
        ModOf(n - m, n, 0, n - m);
      }
    }
  }

  /** Taking the successor commutes with the remainder. */
  lemma ModSucc(a: int, n: int)
    requires n > 0
    ensures (a + 1) % n == (a % n + 1) % n
  {
    var q, m := a / n, a % n;
    var qn := q * n;
    assert a == qn + m;
    if m + 1 < n {
      ModOf(a + 1, n, q, m + 1);
      ModOf(m + 1, n, 0, m + 1);
    } else {
      assert (q + 1) * n == qn + n;
      ModOf(a + 1, n, q + 1, 0);
      ModOf(m + 1, n, 1, 0);
    }
  }

  /** Consecutive days visit consecutive puzzles, wrapping at the end of the list. */
  lemma DailyIndexNextDay(dayDiff: int, n: nat)
    requires n > 0
    ensures DailyIndex(dayDiff + 1, n).value == (DailyIndex(dayDiff, n).value + 1) % n
  {
    DailyIndexInRange(dayDiff, n);
    DailyIndexInRange(dayDiff + 1, n);
    ModSucc(dayDiff, n);
  }
}
