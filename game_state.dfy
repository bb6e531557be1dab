/**
 * The state transition of `handleGuessSubmission` (script.js:143-258):
 * the checks a guess must pass, in order, and what an accepted guess adds to
 * the game state. The word-info request is a parameter.
 */
module Game {
  import opened Wrappers
  import opened ParseSet
  import opened GameRules

  /** What the client keeps of the word-info response (script.js:125-132). */
  datatype WordReply = WordReply(isValid: bool, frequency: real, syllableParses: Option<seq<Parse>>)

  /** One recorded guess (script.js:211-217). */
  datatype Guess = Guess(word: string, score: int, syllables: nat, frequency: real, syllableList: seq<string>)

  /** How a submission ends. */
  datatype Verdict =
    | TooShort            // script.js:154-160
    | WrongPlacement      // script.js:163-181
    | NotAWord            // script.js:184-190
    | WrongSyllableCount  // script.js:193-207
    | Accepted(guess: Guess)

  /** The index of the first parse that has the required count, if any (script.js:193). */
  function FirstMatchingParse(parses: seq<Parse>, count: int): (k: Option<nat>)
    ensures k.Some? ==> k.value < |parses| && parses[k.value].count == count
    ensures k.Some? ==> forall j :: 0 <= j < k.value ==> parses[j].count != count
    ensures k.None? <==> forall j :: 0 <= j < |parses| ==> parses[j].count != count
  {
    if parses == [] then None
    else if parses[0].count == count then Some(0)
    else
      var k := FirstMatchingParse(parses[1..], count);
      if k.Some? then Some(k.value + 1) else None
  }

  /** Some parse has the required count. */
  predicate HasParse(reply: WordReply, required: Option<int>) {
    && required.Some? && reply.syllableParses.Some?
    && exists j :: 0 <= j < |reply.syllableParses.value| && reply.syllableParses.value[j].count == required.value
  }

  /**
   * The verdict on a submission: the length check, the placement rule of the
   * current stage, the word's validity and a parse with the required count,
   * in that order. An accepted guess records the first such parse and the
   * score its frequency earns.
   */
  function Judge(puzzle: Puzzle, stage: int, guess: string, reply: WordReply): (v: Verdict)
    ensures v == TooShort <==> |guess| < 4
    ensures v == WrongPlacement <==> |guess| >= 4 && !ValidateGuess(puzzle, stage, guess).0
    ensures v == NotAWord <==> |guess| >= 4 && ValidateGuess(puzzle, stage, guess).0 && !reply.isValid
    ensures v.Accepted? <==>
      |guess| >= 4 && ValidateGuess(puzzle, stage, guess).0 && reply.isValid &&
      HasParse(reply, ValidateGuess(puzzle, stage, guess).1)
    ensures v.Accepted? ==>
      && v.guess.word == guess
      && 1 <= v.guess.score <= 5 && v.guess.score == ScoreFromFrequency(reply.frequency)
      && v.guess.frequency == reply.frequency
      && v.guess.syllables == puzzle.syllablesRequired[stage]
      && reply.syllableParses.Some?
      && var k := FirstMatchingParse(reply.syllableParses.value, v.guess.syllables);
        k.Some? && reply.syllableParses.value[k.value] == Parse(v.guess.syllables, v.guess.syllableList)
  {
    if |guess| < 4 then TooShort
    else
      var (placement, required) := ValidateGuess(puzzle, stage, guess);
      if !placement then WrongPlacement
      else if !reply.isValid then NotAWord
      else if required.None? || reply.syllableParses.None? then WrongSyllableCount
      else
        var k := FirstMatchingParse(reply.syllableParses.value, required.value);
        if k.None? then WrongSyllableCount
        else
          var p := reply.syllableParses.value[k.value];
          Accepted(Guess(guess, ScoreFromFrequency(reply.frequency), p.count, reply.frequency, p.syllables))
  }

  /** The sum of the recorded scores. */
  function TotalScore(guesses: seq<Guess>): int {
    if guesses == [] then 0 else TotalScore(guesses[..|guesses| - 1]) + guesses[|guesses| - 1].score
  }

  /** The total of scores that are each between 1 and 5 is between the count and five times it. */
  lemma {:induction false} TotalScoreBounds(guesses: seq<Guess>)
    requires forall i :: 0 <= i < |guesses| ==> 1 <= guesses[i].score <= 5
    ensures |guesses| <= TotalScore(guesses) <= 5 * |guesses|
    decreases |guesses|
  {
    if guesses != [] {
      TotalScoreBounds(guesses[..|guesses| - 1]);
    }
  }

  /** The game state `handleGuessSubmission` reads and writes. */
  class GameState {
    const puzzle: Puzzle
    var guesses: seq<Guess>
    var score: int
    var currentStage: int

    /** One stage per accepted guess, and the score is theirs summed. */
    ghost predicate Valid()
      reads this
    {
      currentStage == |guesses| && score == TotalScore(guesses) &&
      forall i :: 0 <= i < |guesses| ==> 1 <= guesses[i].score <= 5
    }

    constructor (puzzle: Puzzle)
      ensures Valid() && this.puzzle == puzzle && guesses == [] && score == 0 && currentStage == 0
    {
      this.puzzle := puzzle;
      guesses := [];
      score := 0;
      currentStage := 0;
    }

    /**
     * `handleGuessSubmission(guess)`: an accepted guess is appended, its score
     * added and the stage advanced by one; every rejection leaves the state
     * as it was.
     */
    method HandleGuessSubmission(guess: string, reply: WordReply) returns (v: Verdict)
      requires Valid()
      modifies this
      ensures Valid()
      ensures v == Judge(puzzle, old(currentStage), guess, reply)
      ensures v.Accepted? ==>
        guesses == old(guesses) + [v.guess] && score == old(score) + v.guess.score &&
        currentStage == old(currentStage) + 1
      ensures !v.Accepted? ==> guesses == old(guesses) && score == old(score) && currentStage == old(currentStage)
    {
      v := Judge(puzzle, currentStage, guess, reply);
      if v.Accepted? {
        guesses := guesses + [v.guess];
        assert guesses[..|guesses| - 1] == old(guesses);
        score := score + v.guess.score;
        currentStage := currentStage + 1;
      }
    }
  }
}
