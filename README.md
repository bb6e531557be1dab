# Syllabl: a verified model of the word-info handler and the game rules

Syllabl is a daily word game. Each puzzle has a three-letter string and up
to six stages. At each stage the player must find a word that places the
string where the stage's rule says (at the end, at the start, strictly
inside, or at both ends). The word must also have the stage's syllable
count. Rarer words score more.

Two parts of the system are modelled here.

* **The word-info handler** (`index.mjs`) takes a word and the parsed
  Merriam-Webster response. It works out the word's syllables and returns
  the word, its syllable list, the set of candidate parses and the
  frequency. The model covers:
  * the input check and the record filter: suggestions only, no entries,
    too many offensive records, or no usable common headword;
  * the resolution cascade over the dictionary records: a starred headword,
    a starred inflection, or a run-on entry matched as itself or as its
    plural;
  * the one-shot phoneme override, which re-cuts the syllables evenly when
    the pronunciation has more syllables than the marked spelling;
  * the headword fallback and the plural and past-tense suffix stitching;
  * the naive pronunciation fallback;
  * the check that some syllables were found, and the rarity check;
  * the parse set: one even split per pronunciation, de-duplicated, with
    the authoritative split added in front.
* **The game rules** (`script.js`). The model covers:
  * placement validation and the rule descriptions;
  * the frequency-to-score scale, the feedback, victory and colour tiers;
  * the daily puzzle index;
  * the state transition of a guess submission;
  * the build of a custom puzzle from its rows;
  * the statistics `endGame` stores, over a value standing for the
    browser's local storage.

Some inputs are parameters of the model:
* the frequency the handler looks up from Datamuse;
* the word-info reply the client receives;
* the word lookup a custom puzzle's build performs;
* the game identifier `endGame` derives from the date.

One module per component, one file each:

| file | module | models |
|---|---|---|
| wrappers.dfy | Wrappers | `Option` and `Result` |
| strings.dfy | Strings | ASCII `toLowerCase`, `startsWith`/`endsWith`/`includes`, `split`/`join`, an ASCII-whitespace `trim` |
| dictionary.dfy | Dictionary | the records of a dictionary response and the syllable count of a pronunciation |
| record_filter.dfy | RecordFilter | the sanity, offensive and headword checks |
| run_on.dfy | RunOnMatching | `matchPluralRunOn` |
| even_split.dfy | EvenSplitting | the even re-cut of a word into `n` chunks |
| phoneme_override.dfy | PhonemeOverride | `overrideWithPhonemeMismatch` and the request's one-shot flag |
| resolver.dfy | SyllableResolver | the resolution cascade and the headword fallback |
| suffix.dfy | SuffixStitching | the plural and past-tense suffix rules |
| parse_set.dfy | ParseSet | `extractSyllableParses` and the merge of the authoritative split |
| word_info.dfy | WordInfoHandler | the handler from the parsed response to the reply |
| rules.dfy | GameRules | the pure rule, score and tier functions of the client |
| game_state.dfy | Game | `handleGuessSubmission` |
| custom_puzzle.dfy | CustomPuzzle | `validateAllRowsAndBuildPuzzle` |
| end_game.dfy | GameStatistics | `endGame` |

In several places the code does something other than its description or
its evident intent. The model follows the code as written, everywhere,
including the handler's reply and the statistics `endGame` stores. Where the
code is wrong (see "## Findings"), the corrected definition is stated and
proved beside the as-written one, and only the as-written one feeds the
handler and `endGame`:
* A headword or inflection match does not reset the base-word flag that an
  earlier run-on match set.
* The "no names" rejection of the headword fallback fires only when the
  first character is uncased. The `find` before it already skips records
  whose headword starts with an upper-case letter.
* A run-on entry matched exactly, with no suffix, still sets the base-word
  flag.
* The naive fallback compares the syllable count with `!==`, not `<`, and
  never sets the one-shot flag.
* The "couldn't figure out the syllables" reply (index.mjs:276-278) is kept
  in the model but can never be given. A response that passes the headword
  filter has a record whose headword starts with a lower-case letter. The
  headword fallback then always produces syllables, and no later stage
  removes them. `WordInfoHandler.NeverUnresolvable` proves this under the
  model's ASCII case mapping.
* Custom puzzle letters are lower-cased and then trimmed. A row's word is
  trimmed and then lower-cased.
* The past-tense "ied" rule compares the word less "ied" with the joined
  list itself, so `WordInfoHandler.Handle` keeps ["car","ry"] for
  "carried", and on a list ending in "y" whose last syllable is non-empty it
  produces a list that does not
  spell the word.
* `endGame` compares every syllable with the longest syllable stored before
  the game, so `GameStatistics.EndGame` stores the last syllable in guess
  order that beats it, not the longest one.

## Model

| member | source | states |
|---|---|---|
| RecordFilter.FilterRecords | index.mjs:43-78 | each rejection (suggestions only, no entries, offensive, no usable headword) holds exactly when its condition does; the response is accepted iff none does |
| RecordFilter.OffensiveThreshold | index.mjs:55-58 | the ratio test `count / total >= 0.35` is the integer test `20 * count >= 7 * total` |
| RecordFilter.AcceptedHasCommonHeadword | index.mjs:65-78 | an accepted response has a record with a lower-case, single-word headword without digits |
| SyllableResolver.MatchEntry | index.mjs:87-132 | the headword branch always gives a headword match; an inflection match occurs iff the headword branch does not apply and a marked inflection exists; a run-on match only when neither does; the syllables are the `*`-split of the headword, the inflection form or the run-on's `ure` respectively, at least one |
| SyllableResolver.MatchSpellsWord | index.mjs:91-111 | the syllables of a headword or inflection match, joined and lower-cased, are the word |
| SyllableResolver.FindInflection | index.mjs:106-108 | the first inflection whose normalised form is the word, or none when no inflection's is |
| SyllableResolver.MarkedInflection | index.mjs:105-109 | an inflection is used only when it normalises to the word and carries a syllable marker |
| SyllableResolver.CascadeEmptyIff | index.mjs:86-153 | the cascade finds no syllables iff no record matches |
| SyllableResolver.CascadeBaseIff | index.mjs:86-153 | the base-word flag is set iff some record matched through a run-on entry |
| SyllableResolver.BaseWordHasList | index.mjs:86-153 | when the base-word flag is set, the syllable list is non-empty |
| SyllableResolver.CascadeLastMatchWins | index.mjs:86-153 | the result comes from the last matching record: its marked syllables or their even re-cut by its pronunciation |
| SyllableResolver.CascadeFlagMonotone | index.mjs:86-153 | once the one-shot override flag is set, the cascade never clears it |
| SyllableResolver.ResolveEntries | index.mjs:86-153 | the loop over the records yields the cascade's list, flag and base-word flag |
| SyllableResolver.FallbackIndex | index.mjs:157-161 | the first record whose headword starts with a non-upper-case character, or none |
| SyllableResolver.HeadwordFallback | index.mjs:156-175 | the fallback rejects only when a candidate's first character is uncased, splits a lower-case headword into at least one syllable, and does nothing iff no record is a candidate |
| RunOnMatching.MatchPluralRunOn | index.mjs:409-423 | a match names a run-on entry, one of its root forms, and a plural relation between word and root, and no earlier entry has a matching root; no match iff no entry has one |
| RunOnMatching.MatchIsFirstRoot | index.mjs:415-420 | the matched root is the first of its entry's roots that the word is a plural form of |
| RunOnMatching.PluralSuffixMeaning | index.mjs:416-419 | the suffix found is "", "s", "es" or "ies", and the word is the root with that suffix (the "ies" case replaces a final "y") |
| RunOnMatching.ExactRootIsMatched | index.mjs:133-151 | a word equal to a root form of some run-on entry is already matched by the plural search, so the exact-match loop after it never runs |
| PhonemeOverride.OverrideShape | index.mjs:382-406 | the override fires only when the flag is clear and the pronunciation has more syllables than the list; it then sets the flag and returns that many chunks that spell the word, and otherwise changes nothing |
| PhonemeOverride.OverrideAtMostOnce | index.mjs:386-391 | after the override has fired once, a second call never fires |
| PhonemeOverride.RequestState.OverrideWithPhonemeMismatch | index.mjs:382-406 | the call updates the request's flag as the override says, and the request re-cuts at most once |
| EvenSplitting.SplitEvenly | index.mjs:393-401 | the chunking loop yields exactly `n` chunks, equal to the even split, which spell the word |
| EvenSplitting.EvenSplitCount | index.mjs:396-401 | the even split has `n` chunks |
| EvenSplitting.EvenSplitConcat | index.mjs:396-401 | the chunks concatenate back to the word |
| EvenSplitting.EvenSplitBalanced | index.mjs:396-401 | chunk lengths never increase and differ by at most one |
| EvenSplitting.EvenSplitTrailingEmpty | index.mjs:396-401 | a word shorter than `n` gets one letter per chunk and then empty chunks |
| EvenSplitting.EvenSplitKeyDetermines | index.mjs:372-377 | two even splits of one word with the same dash-joined key have the same count |
| SuffixStitching.StitchPlural | index.mjs:178-208 | the plural rules add at most one syllable; an "ies" word always rewrites only the last syllable; an added syllable comes only from an "es" word |
| SuffixStitching.PluralEffect | index.mjs:178-208 | an "ies" word turns the last syllable's final "y" (if any) into "ies"; an "es" word pushes "es" iff the base ends in s, x, z, ch or sh and the list spells the base, and otherwise changes nothing; an "s" word appends "s" to the last syllable iff the list spells the base; any other word changes nothing |
| SuffixStitching.PluralSpellsWord | index.mjs:186-206 | outside the "ies" rule, plural stitching leaves the list alone or makes it spell the word |
| SuffixStitching.PluralFirstSuffixOnly | index.mjs:186 | only the first matching suffix is tried: "cakes" matches "es", whose sibilant test fails, so "s" is never tried |
| SuffixStitching.PluralIesUnchecked | index.mjs:189-196 | the "ies" rule does not compare the base with the list: "series" over ["se","ries"] becomes ["se","riesies"] |
| SuffixStitching.PastTenseAsWrittenEffect | index.mjs:210-243 | rule by rule, as written: "ied" on a list spelling the word less "ied" drops a final "y" and appends "ied"; "ed" after t or d pushes "ed", after any other letter appends it; "d" appends "d"; the first rule that applies wins, and with none the list stays |
| SuffixStitching.PastTenseAsWrittenSpells | index.mjs:210-243 | as written, the pass leaves the list alone or makes it spell the word, except the "ied" rule on a list ending in "y": when the last syllable is non-empty, it changes the list without spelling the word |
| SuffixStitching.YIedMisspellsAsWritten | index.mjs:225-228 | as written, ["xy"] for "xyied" becomes ["xied"], which does not spell the word |
| SuffixStitching.PastTenseSpellsWord | index.mjs:210-243 | with the corrected "ied" rule, the past-tense rules add at most one syllable and leave the list alone or make it spell the word |
| SuffixStitching.StitchPastTense | index.mjs:210-243 | the rule loop, as written, returns the first applicable rule's result; it adds at most one syllable and leaves the list alone or spells the word, unless the "ied" rule meets a list ending in "y" |
| SuffixStitching.CarriedAsWritten | index.mjs:219-231 | as written, "carried" over ["car","ry"] stays unchanged |
| SuffixStitching.CarriedCorrected | index.mjs:219-231 | with the intended comparison, "carried" over ["car","ry"] becomes ["car","ried"], which spells the word |
| ParseSet.StripParens | index.mjs:354 | removing parenthesised groups never lengthens the text and leaves text without "(" unchanged |
| ParseSet.ExtractSyllableParses | index.mjs:347-379 | the loop returns one even split per pronunciation with an `mw`, keeping the first of each key |
| ParseSet.ExtractParsesSpellWord | index.mjs:347-379 | every extracted parse has a count equal to its number of syllables, at least one, and spells the word; no pronunciation list gives no parses |
| ParseSet.ExtractDistinct | index.mjs:372-378 | extracted parses have distinct keys and distinct counts, each is the first candidate with its key, and every candidate's count is represented |
| ParseSet.MergeAuthoritative | index.mjs:308-318 | the merged set is the extracted set unchanged, or the authoritative split put in front of it; the latter exactly when the list is non-empty and no extracted parse has its key; the key is then present and keys stay distinct |
| WordInfoHandler.NaiveRebuild | index.mjs:246-274 | the naive fallback changes the list only when the flag is clear, re-cutting the word into the headword's maximum pronunciation count; with the flag set it never changes it |
| WordInfoHandler.RecutShape | index.mjs:251-273 | the naive re-cut applies only when the headword is the word and the flag is clear, and yields that many chunks spelling the word |
| WordInfoHandler.ReplySuccess | index.mjs:276-328 | a successful reply has a non-zero frequency, a syllable count equal to the list length (at least one), distinct parses that each spell out their count, and one parse with the list's key |
| WordInfoHandler.HandleSuccess | index.mjs:4-344 | a success means a word was given, the records passed the filter, the reply is for the lower-cased word, and the reply's properties hold |
| WordInfoHandler.ResolvedHasList | index.mjs:80-175 | when some record is a fallback candidate, a successful resolution always has at least one syllable |
| WordInfoHandler.RespondKeepsList | index.mjs:177-278 | suffix stitching and the naive fallback never empty a non-empty list, so such a list is never answered as unresolvable |
| WordInfoHandler.NeverUnresolvable | index.mjs:276-278 | no request gets the "couldn't figure out the syllables" reply: the record filter guarantees a record the headword fallback can use |
| WordInfoHandler.ResolveSyllables | index.mjs:80-175 | the cascade and headword fallback give the resolved result, with the request's flag as the result's |
| WordInfoHandler.StitchSuffixes | index.mjs:177-244 | the suffix stage gives the plural pass followed by the as-written past-tense pass; it adds at most two syllables, the count follows the list, and the past-tense pass leaves the plural result alone or makes it spell the word unless the "ied" rule meets a list ending in "y" |
| WordInfoHandler.Handle | index.mjs:4-344 | the handler's reply is the specified one, with the suffix rules as written, and the reported count is the list length |
| GameRules.PassesRuleAt | script.js:94-111 | each rule code holds iff the letters occur at the end, at the start, strictly inside and at neither end, or at both ends; other codes never pass |
| GameRules.FullyContainsNeedsRoom | script.js:101-106 | a word passing "fully contain" is at least two letters longer than the string |
| GameRules.ValidateGuess | script.js:87-114 | a valid placement means the stage exists and its rule passes; the syllable count is present iff the stage exists, and is the stage's |
| GameRules.DescribedRules | script.js:549-557 | a passing rule has a known description, and the four descriptions are distinct |
| GameRules.ScoreFromFrequency | script.js:571-577 | the score lies in 1..5; it is 1 iff the frequency is at least 100 and 5 iff below 0.1 |
| GameRules.ScoreNonIncreasing | script.js:571-577 | a more frequent word never scores more |
| GameRules.FeedbackIsScore | script.js:579-585 | the feedback category is the score written as a digit |
| GameRules.VictoryOrdered | script.js:563-569 | victory tiers are monotone in the score, and each tier bounds the score it covers |
| GameRules.ColorsDistinct | script.js:587-596 | different scores get different colours; a code outside 1..5 gets score 2's colour |
| GameRules.DailyIndexInRange | script.js:75-77 | the daily index is the day difference modulo the puzzle count, in range even for negative day differences |
| GameRules.DailyIndexNextDay | script.js:75-77 | the next day's puzzle is the next in the list, cyclically |
| Game.FirstMatchingParse | script.js:193 | the first parse with the required count, or none when no parse has it |
| Game.Judge | script.js:143-218 | the verdict is too short, wrong placement, not a word, wrong syllable count or accepted exactly under the source's checks in order; an accepted guess carries the word, its 1..5 score, the frequency and the first parse of the required count in the reply |
| Game.GameState.HandleGuessSubmission | script.js:143-258 | an accepted guess is appended, its score added and the stage advanced; any other verdict changes nothing |
| Game.TotalScoreBounds | script.js:210-218 | the total score of `n` guesses lies between `n` and `5n` |
| CustomPuzzle.BuildStages | script.js:1224-1271 | the row loop succeeds iff the rule-syllable combinations are distinct and every row passes; a failure names the first failing stage and why |
| CustomPuzzle.ValidateAllRowsAndBuildPuzzle | script.js:1211-1274 | bad letters iff they are not three characters; success iff the letters are good and every row passes; every built word passes its rule and is at least three letters |
| GameStatistics.BestScoreIsMaximum | script.js:333-341 | the stored best score of a non-custom puzzle becomes the greater of the old one and this game's; nothing else changes |
| GameStatistics.LongestWordIsFirstLongest | script.js:357-365 | the longest word is at least as long as the stored one and every guess, and is the stored one or the first guess of its length |
| GameStatistics.RarestIsFirstRarest | script.js:367-378 | the rarest word is no more frequent than every guess and the stored one, and is the stored one or the first guess of that frequency |
| GameStatistics.AsWrittenInGuessIsLastBeating | script.js:383-389 | within one guess, the record left is the last syllable that beats the stored one, or the record held before the guess when none does |
| GameStatistics.LongestSyllableAsWrittenIsLastBeating | script.js:380-390 | as written, the stored syllable stays when no guessed syllable beats it, and otherwise becomes the last syllable in guess order that beats it, with its word and display |
| GameStatistics.LongestSyllableIsLongest | script.js:380-390 | with the corrected comparison against the best so far, the result is at least as long as every guessed syllable and comes from the guesses unless the stored one stands |
| GameStatistics.ScanLongestSyllable | script.js:380-390 | the nested loops, comparing each syllable with the record read before them, leave the as-written result stored |
| GameStatistics.LastSyllableWinsAsWritten | script.js:380-390 | as written, with nothing stored, guess "abcd" split ["abc","d"] stores "d"; the corrected reduction stores "abc" |
| GameStatistics.BumpEffect | script.js:397 | bumping a syllable adds one to its count, leaves others alone, appends it as a new key when absent, and keeps keys distinct |
| GameStatistics.TallyGuessesEffect | script.js:392-401 | every syllable's count grows by its occurrences in the guesses, old keys stay and keys stay distinct |
| GameStatistics.TallySyllables | script.js:395-399 | the nested loop computes the tally |
| GameStatistics.MostCommonIsFirstMaximum | script.js:403-408 | the most common syllable is the first entry with the greatest count, and none exactly when all counts are zero |
| GameStatistics.MostCommonSyllable | script.js:403-408 | the loop over the entries computes the most common syllable |
| GameStatistics.EndGameOnce | script.js:326-331 | a processed game is marked, and ending it again changes nothing |
| GameStatistics.EndGameEffect | script.js:330-409 | a new game adds one game, its guesses and score to the totals, stores the three reductions, the as-written longest syllable (the stored one or one from the guesses), grows each syllable's count by its occurrences, and names the first most common syllable |
| GameStatistics.EndGame | script.js:325-424 | `endGame` returns the specified statistics, with the longest syllable as written |
| GameStatistics.RecordGame | script.js:330-424 | the body of the unprocessed branch returns the specified statistics, with the longest syllable as written |

## Left out

- The dictionary and Datamuse fetches, the API key check, URL building, the parsing of the frequency tag and the logging. The dictionary response and the frequency are parameters. Of the failures that reach the catch-all 500 reply, only a pronunciation without `mw` in the naive fallback is modelled.
- `toLowerCase` and `toUpperCase` are ASCII-only. Unicode case mapping is not modelled.
- CustomPuzzle.ValidateAllRowsAndBuildPuzzle, CustomPuzzle.BuildStages: `trim` strips ASCII whitespace only, not the non-ASCII spaces and line terminators JavaScript also strips (such as U+00A0, U+FEFF, U+2028). Lengths count code points, not UTF-16 units. So "abc" preceded by U+00A0 is rejected as bad letters here, though the client accepts it; a row word "ab" followed by U+00A0 passes the length check here, though the client rejects it as too short.
- An inflection's `if` and a run-on's `ure` are required strings. A record missing them would throw into the catch-all 500 reply.
- `Object.entries` orders integer-like keys first. The model keeps the syllable tally in insertion order.
- The run-on exact-match loop at index.mjs:133-151 is omitted. `RunOnMatching.ExactRootIsMatched` shows it can never run.
- The DOM, animations, timers, tooltips and the random choice of feedback text. The feedback category is modelled, the text chosen from it is not.
- Local storage is modelled as a `Stats` value. `parseInt`/`parseFloat` of corrupt stored values (NaN) is not modelled.
- The daily-mode save of the game state and `submitDailyPerformance` (script.js:411-423, 259-290). leaderboardHandler.mjs is not part of this model.
- The game identifier built from the mode, the letters and the date is a parameter.
- The date arithmetic before line 77 and the random puzzle choice. The day difference is a parameter.
- The live per-row check of the custom puzzle form. Only the final build is modelled.
- GameStatistics.RarestIsFirstRarest: requires every guess word to be non-empty, which the client guarantees because guesses are at least four letters long.
- GameStatistics.EndGameEffect: requires the same, for the same reason.

## Findings

| source | as written | input that shows it | evidently intended | confidence | as-written member | corrected member |
|---|---|---|---|---|---|---|
| index.mjs:219-231 | the "ied" rule compares the word minus "ied" with the joined base, which still ends in "y", so the rule never fires on a list spelling the "y" form; when it fires on a list that ends in "y" and whose last syllable is non-empty, it drops the "y" and misspells the word (`SuffixStitching.YIedMisspellsAsWritten`) | "carried" with syllables ["car","ry"] stays ["car","ry"] | compare the word minus "ied" with the base minus its final "y", giving ["car","ried"] | not executed | SuffixStitching.CarriedAsWritten | SuffixStitching.CarriedCorrected |
| script.js:380-390 | each syllable is compared with the stored syllable read once before the loop, never with the best so far, so the last syllable longer than the stored one wins | nothing stored, guess "abcd" split ["abc","d"] stores "d" | keep the longest syllable seen, "abc" | not executed | GameStatistics.LastSyllableWinsAsWritten | GameStatistics.LongestSyllableIsLongest |
