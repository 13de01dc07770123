# Wordle solver: candidate elimination, modelled in Dafny

This project models the core of a Wordle helper. The helper holds a list of
candidate answers. After each guess the puzzle colours every letter: green
(right letter, right place), yellow (in the word, elsewhere) or black (not in
the word). The helper deletes every candidate that those colours rule out.
Then it suggests the candidate with the highest letter-frequency score.

The repository has two copies of this engine, and the model has both:

- `solve.py`: module-level functions that mutate a Python list in place
  (module `Solve`). The list object is `Lists.WordList`.
- `wordle_helper/wordle_helper.py`: the class `WordleHelper`, which keeps the
  list in a field and rebuilds it (module `Helper`, class
  `Helper.WordleHelper`).

A third core file, `insert_words.py`, inserts words into the alphabetically
sorted word list without duplicates (module `InsertWords`).

## How the model is organised

- `Outcomes`: `Option`, and `Result`/`Outcome` carrying the Python exception
  the source would raise (`KeyError`, `IndexError`, `ValueError`,
  `TypeError`).
- `Lists`:
  - the mutable list object `WordList`;
  - `Filter`, an order-preserving selection;
  - `Without`, which removes a set of positions;
  - the subsequence relation.
- `Letters`: letter counts, the first repeated letter of a guess, and the
  first and last position of a letter. A guess with three copies of a letter
  uses its first and last position, as the source does.
- `Scoring`:
  - the 26-letter score sheet, in exact hundredths;
  - `Score(w)`: each distinct letter of `w` counts once;
  - `IsFirstBest`: the first word with the highest score.
- `Feedback`:
  - the colours;
  - the per-position rule of the base pass (`BaseKeep`);
  - the count-based rule for a repeated letter (`CountRule`): a green copy
    is in place and a yellow one is not. The candidate holds exactly as many
    copies as there are green and yellow colours when one of the two is
    black, and at least that many otherwise.
- `Solve` and `Helper`: each copy's joint rule for a repeated letter, its
  specification functions (`Solve.Survivors`, `Helper.UpdateResult`) and its
  methods. The methods follow the source's loops: each one collects the
  positions to delete, then deletes them.
- `Agreement`: exactly where the two engines agree and where they differ.
- `InsertWords`:
  - Python's string order `Less`;
  - the scan of `insert_word` (`ScanStop`, `Inserts`, `AfterInsert`);
  - the batch partition of `insert_words` (`InsertBatch`).

Each method is proved against a specification function. The properties that
matter are then proved as lemmas about those functions.

### Where the code departs from the count-based rule

Under the count-based rule, the (yellow, black) and (black, yellow) colour
pairs of a repeated letter require exactly one copy of the letter.

`solve.py` is weaker:
- At lines 172-175 it deletes only candidates with more than one copy.
- At lines 183-186 it does the same, and also checks the last position.

So it also keeps candidates that hold no copy at all. The model follows the
code. `Solve.JointRuleAgainstCountRule` proves that this pair is the only
difference.

`wordle_helper.py` differs from `solve.py` in two joint-rule cases:
- The (yellow, black) pair also rejects a candidate with the letter at the
  black position (line 155).
- Black at the first position raises `TypeError` (line 160).

`Agreement.JointRulesAgree` and `Agreement.EnginesAgree` state both.

## Model

| member | source | states |
|---|---|---|
| Solve.GetScore | solve.py:45-52 | the result is `Ok(Score(word))` exactly when every letter has a weight; otherwise `KeyError` |
| Scoring.SheetIsAlphabet | solve.py:16-43 | the score sheet weighs exactly the 26 distinct letters of the alphabet |
| Scoring.ScoreAppend | solve.py:47-50 | appending a letter adds its weight only if it is new to the word |
| Scoring.ScoreStep | solve.py:47-50 | one step of the scan: the seen set grows by the letter, and the score grows by its weight exactly when it was unseen |
| Scoring.ScoreOfSameLetters | solve.py:47-50 | words with the same set of letters score the same, so repeats and order do not matter |
| Scoring.ScoreOfDistinct | solve.py:47-50 | a word with distinct letters scores the plain sum of its letters' weights |
| Scoring.FirstBestUnique | solve.py:63-67 | at most one position is the first highest-scoring word |
| Solve.GetBestWord | solve.py:61-69 | `IndexError` on an empty list and `KeyError` if a word is unscorable; otherwise a word of the list that scores highest, with every earlier word scoring strictly less |
| Solve.CountLetter | solve.py:80-85 | the count equals the letter's multiplicity in the word, is at most its length, and is positive exactly when the letter occurs |
| Letters.CountBounds | solve.py:80-85 | the count is at most the length, and is positive exactly when the letter occurs |
| Solve.DeleteIndices | solve.py:94-97 | visiting the positions in ascending order, the list becomes the old list without the given positions, in order, and is shorter by their number |
| Solve.SortedPositions | solve.py:95 | the positions to delete in strictly ascending order, exactly the given set |
| Solve.Del | solve.py:96 | Python's `del`: succeeds exactly for positions from `-len` to `len - 1`, removing the element at `p` (at `len + p` for a negative `p`) and nothing else, and raises `IndexError` otherwise |
| Solve.DeleteInOrder | solve.py:94-97 | the loop as written, for a given order of the set: on success the list is shorter by the number of positions visited |
| Solve.DeleteAscending | solve.py:94-97 | when the loop as written visits the positions in ascending order, it removes exactly those positions and keeps the rest in order |
| Solve.SetOrderDeletesWrongWord | solve.py:95-96 | visiting `{1, 8}` as 8 then 1 on nine words deletes the words at 8 and 0, not those at 1 and 8 |
| Lists.DeleteNext | solve.py:96-97 | once the positions before `p` are deleted, the word from `p` sits at `p` less their number, and deleting it there removes `p` too |
| Lists.IncreasingCount | solve.py:97 | a strictly increasing sequence of positions has as many distinct positions as its length, so `num_deleted` counts the positions removed |
| Lists.WithoutLength | solve.py:94-97 | deleting a set of in-range positions shortens the list by the size of the set |
| Lists.WithoutIsSubsequence | solve.py:94-97 | deleting positions leaves the remaining words in their original order |
| Solve.FindDuplicateLetter | solve.py:106-113 | the result is the letter whose second occurrence comes first, or None exactly when all letters are distinct |
| Letters.DuplicateLetter | solve.py:106-113 | None exactly when the letters are distinct; otherwise a letter whose repeat ends the longest prefix of distinct letters |
| Letters.DuplicateLetterOccursTwice | solve.py:106-113 | the reported letter occurs at two different positions |
| Letters.DuplicateLetterStep | solve.py:107-109 | reading one more letter after a repeat has been seen does not change the reported letter |
| Letters.DuplicateLetterOfPrefix | solve.py:107-109 | the scan returns at the first repeat, so a prefix's repeated letter is the word's |
| Letters.FirstIndex | solve.py:128-133 | the first position holding the letter |
| Letters.LastIndex | solve.py:128-133 | the last position holding the letter |
| Letters.FirstBeforeLast | solve.py:128-133 | for a letter occurring twice, the first position is strictly before the last |
| Solve.DuplicatePositions | solve.py:125-133 | `index_a` and `index_b` end as the first and last position of the repeated letter, with `index_a < index_b` |
| Solve.FailsJointRule | solve.py:136-191 | a candidate is flagged exactly when it breaks the joint rule for the colours at the two positions |
| Solve.HandleDuplicate | solve.py:115-193 | the list becomes exactly the candidates that meet the joint rule, in their original order |
| Solve.JointRuleAgainstCountRule | solve.py:137-191 | for green, yellow and black, the joint rule is the count-based rule, except that (yellow, black) and (black, yellow) also keep candidates with no copy of the letter |
| Solve.UpdateWordList | solve.py:195-228 | the list becomes `Survivors`: the joint rule when there is a repeated letter, then the base pass |
| Feedback.FailsBaseRound | solve.py:210-226 | in one round, a candidate is flagged exactly when it is the guess, or when the position does not hold the repeated letter and the candidate breaks its colour rule |
| Feedback.BaseKeepUpToMeaning | solve.py:208-226 | after `n` rounds a candidate survives exactly when it is not the guess and meets the colour rule of each of the first `n` positions that do not hold the repeated letter |
| Feedback.BaseKeepMeaning | solve.py:208-226 | the base pass, colour by colour: green needs the letter there, yellow needs it elsewhere, black needs it absent; the guess itself goes |
| Solve.SurvivorsMeaning | solve.py:203-228 | a candidate survives exactly when it was in the list, meets the joint rule (if any), and meets the base pass |
| Solve.SurvivorsSubsequence | solve.py:193-228 | pruning never adds a word and keeps the survivors in their original order |
| Solve.GuessRemoved | solve.py:211-212 | once any colour is given, the guess itself is never a survivor |
| Helper.WordleHelper.constructor | wordle_helper/wordle_helper.py:17-18 | the helper starts with the given list |
| Helper.WordleHelper.GetWordScore | wordle_helper/wordle_helper.py:40-48 | `Ok(Score(word))` exactly when every letter has a weight; otherwise `KeyError` |
| Helper.Max | wordle_helper/wordle_helper.py:58 | the result is an element of the scores and no score exceeds it |
| Helper.IndexOf | wordle_helper/wordle_helper.py:59 | the first position holding the value |
| Helper.WordleHelper.GetBestWord | wordle_helper/wordle_helper.py:57-61 | `KeyError` if a word is unscorable, else `ValueError` on an empty list; otherwise the first highest-scoring word |
| Helper.WordleHelper.FindDuplicateLetter | wordle_helper/wordle_helper.py:70-76 | the result is the letter whose second occurrence comes first, or None when the letters are distinct |
| Helper.WordleHelper.CountLetter | wordle_helper/wordle_helper.py:87-92 | the count equals the letter's multiplicity, and is positive exactly when the letter occurs |
| Helper.WordleHelper.DuplicatePositions | wordle_helper/wordle_helper.py:105-114 | `index_a` and `index_b` end as the first and last position of the repeated letter |
| Helper.WordleHelper.FailsJointRule | wordle_helper/wordle_helper.py:117-176 | `TypeError` when the first position is black; otherwise the candidate is flagged exactly when it breaks the helper's joint rule |
| Helper.WordleHelper.HandleDuplicate | wordle_helper/wordle_helper.py:105-179 | on success the list becomes the candidates that meet the joint rule; on `TypeError` the list is unchanged |
| Helper.HelperJointRuleAgainstCountRule | wordle_helper/wordle_helper.py:118-156 | with green or yellow first, the helper's rule is the count-based rule plus "a black last position does not hold the letter", except that (yellow, black) also keeps candidates with no copy |
| Helper.WordleHelper.UpdateWordList | wordle_helper/wordle_helper.py:189-215 | on success the list becomes `UpdateResult`; on failure it is unchanged and the error is reported |
| Helper.UpdateResultMeaning | wordle_helper/wordle_helper.py:189-215 | the update fails with `TypeError` exactly when the first copy of the repeated letter is black and the list is non-empty; otherwise a candidate survives exactly when it meets the joint rule and the base pass |
| Helper.UpdateResultSubsequence | wordle_helper/wordle_helper.py:215 | a successful update never adds a word and keeps the survivors in order |
| Helper.HelperGuessRemoved | wordle_helper/wordle_helper.py:197-198 | once any colour is given, the guess is never kept |
| Helper.WordleHelper.NextBestWord | wordle_helper/wordle_helper.py:227-230 | after a successful update the suggestion is the best word of the new list; a failed update changes nothing and reports its error |
| Agreement.JointRulesAgree | wordle_helper/wordle_helper.py:118-156 | with green or yellow first, the two copies' joint rules agree, except that for (yellow, black) the helper also requires the black position not to hold the letter |
| Agreement.EnginesAgree | wordle_helper/wordle_helper.py:181-215 | without a repeated letter, or when its colours are neither black-first nor (yellow, black), both engines leave the same candidates |
| InsertWords.LessAsymmetric | insert_words.py:24 | string `<` never holds both ways, so it is irreflexive |
| InsertWords.LessTransitive | insert_words.py:24 | string `<` is transitive |
| InsertWords.LessTrichotomy | insert_words.py:24-27 | two strings are equal or ordered one way or the other |
| InsertWords.ScanStop | insert_words.py:23-31 | the scan passes only words neither greater than nor equal to the new word, and stops at the first that is, or at the end |
| InsertWords.InsertWord | insert_words.py:22-34 | returns whether the scan inserts; the list becomes the old list with the word at the stop, or is unchanged |
| InsertWords.ScanStopAt | insert_words.py:23-31 | a position after only smaller words, holding an equal or greater word or at the end, is where the scan stops |
| InsertWords.ScanStopPassesSmaller | insert_words.py:23-29 | every word the scan passes is smaller than the new word |
| InsertWords.SortedScan | insert_words.py:23-31 | on a sorted list, words before the stop are smaller and words from the stop on are not smaller |
| InsertWords.SortedInsertsIffAbsent | insert_words.py:23-28 | on a sorted list the word is inserted exactly when it is not already present |
| InsertWords.InsertKeepsSorted | insert_words.py:22-34 | inserting into a sorted list keeps it sorted; it then holds the word and, on success, is one longer |
| InsertWords.SortedInsertAt | insert_words.py:33 | placing a word after the smaller words and before the rest of a sorted list keeps it sorted |
| InsertWords.InsertThenRemove | insert_words.py:33 | the inserted word sits at the stop, and removing it gives back the original list |
| Lists.InsertedThenRemoved | insert_words.py:33 | removing an element just inserted at a position gives back the sequence |
| InsertWords.InsertCounts | insert_words.py:27-34 | success adds exactly one copy of the word; failure changes nothing |
| InsertWords.AppendGreatest | insert_words.py:30-31 | a word greater than every word goes at the end; on an empty list, at index 0 |
| InsertWords.FoundAt | insert_words.py:23-28 | a copy of the word after only smaller words makes the scan return false |
| InsertWords.InsertKeepsFound | insert_words.py:23-28 | once the scan finds a word, it still finds it after any other insertion |
| InsertWords.InsertedIsFound | insert_words.py:27-28 | an inserted word is found by the next scan for it |
| InsertWords.InsertWords | insert_words.py:43-50 | the list, the successes and the failures are those of inserting the batch word by word |
| InsertWords.BatchPartition | insert_words.py:46-50 | every batch word lands in exactly one of success and fail, and the list gains exactly the successes |
| InsertWords.BatchKeepsOrder | insert_words.py:46-50 | success and fail each keep the batch's order |
| InsertWords.BatchKeepsSorted | insert_words.py:46-50 | inserting a batch into a sorted list keeps it sorted |
| InsertWords.BatchWordFound | insert_words.py:46-50 | after a batch word is processed, later scans for it find it |
| InsertWords.RepeatFails | insert_words.py:46-50 | a word repeated in the batch fails at its later occurrence, on any list |

## Findings

| source | as written | input that shows it | evidently intended | confidence | as-written member | corrected member |
|---|---|---|---|---|---|---|
| solve.py:94-97 | the loop visits the set of positions in CPython's table order and deletes each at its position less the number already deleted; that shift is right only for ascending order | a list of nine words with positions `{1, 8}` to delete, which CPython visits as 8 then 1: the words at 8 and 0 go, and the word at 1 stays. It happens whenever the set's slot order is not ascending, as for `{1, 8}` (each integer `n` starts its probe at slot `n` modulo the table size), in `handle_duplicate` (line 193) and `update_word_list` (line 228) | delete the positions in ascending order (`sorted(indices_to_delete)`), removing exactly them | high for the arithmetic; CPython's visiting order is argued, not modelled; not executed | Solve.SetOrderDeletesWrongWord | Solve.DeleteIndices |

## Left out

- Solve.GetScore: scores are exact integer hundredths rather than floating-point sums, so two words whose float sums round to a tie or a reversed order could be ranked differently here.
- Helper.WordleHelper.GetWordScore: the same exact-hundredths simplification as `Solve.GetScore`.
- Solve.GetBestWord: inherits the exact-hundredths scores.
- Helper.WordleHelper.GetBestWord: inherits the exact-hundredths scores, for `max` and for `list.index`.
- Solve.HandleDuplicate: requires colours as long as the guess and candidates as long as the guess. On inputs outside that, the source raises `IndexError` on some and not on others; the model excludes them all. A candidate longer than the guess raises no `IndexError`: it is indexed only at the guess's positions, but the letter counts (line 81, called at lines 149-185) and the `in` test (line 190) read all of its letters, so the extra letters still decide survival. A colour tuple shorter than the guess fails only when the last copy of the repeated letter lies beyond it. It also deletes through the corrected `Solve.DeleteIndices`, in ascending order, so it differs from line 193 as written whenever the set's slot order is not ascending, as for `{1, 8}` (see "## Findings").
- Solve.UpdateWordList: the same length requirements as `Solve.HandleDuplicate`. Here a candidate longer than the guess raises no `IndexError`: it is indexed only at the guess's positions, but the `in` tests (lines 221 and 225) read all of its letters, so the extra letters still decide survival; and a colour tuple shorter than the guess makes the base pass check fewer positions (line 208). It also deletes through the corrected `Solve.DeleteIndices`, in ascending order, so it differs from line 228 as written whenever the set's slot order is not ascending, as for `{1, 8}` (see "## Findings").
- Helper.WordleHelper.HandleDuplicate: the same length requirements.
- Helper.WordleHelper.UpdateWordList: the same length requirements. It also models the evident intent of lines 189-195:
  - the method is called on the object;
  - the base pass iterates the helper's own list.
  
  As written, line 189 passes the helper as the word to a method declared without `self` (line 63), which raises `TypeError`. Line 195 reads a local `word_list` that is unbound or `None`.
- Helper.WordleHelper.FindDuplicateLetter: declared at line 63 without `self`; modelled as the static method it was evidently meant to be.
- Helper.WordleHelper.NextBestWord: line 228 returns the bound method `_get_best_word` without calling it; modelled as the call.
- Solve.DeleteIndices: deletes the positions in ascending order, which the shift by `num_deleted` needs. CPython's iteration of a set does not guarantee that order: an integer `n` starts its probe at slot `n` modulo the table size, so `{1, 8}` in an 8-slot table is visited 8 then 1, while `{0, 8}` (8 collides and moves on to slot 1) stays ascending (see "## Findings"). The model follows the evident intent; the loop as written is `Solve.DeleteInOrder`, for any given order. CPython's hash-table order itself is not modelled.
- Colours typed as strings: a letter other than `g`, `y` or `b` is the colour `Other`, which constrains nothing, as in the source. Lower-casing the answers is not modelled.
- Terminal prompts (`ask_about_word`), the game loop, `main.py`, argument parsing and printing are not modelled, and neither are the word-list files and the trimming scripts.
- InsertWords.InsertWords: returns the success and fail lists instead of printing them; reading and writing the word file is not part of this model.
