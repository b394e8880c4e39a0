# wordsmith in Dafny

This is a model of the core of *wordsmith*, a Wordle game with an automatic solver. It covers five parts of the source:

- the letter and word value types (`src/lib.rs`);
- the feedback engine, which marks each letter of a guess Exact, Partial or Wrong against the solution, and the game session (`src/game.rs`);
- the candidate-elimination solver (`src/solver.rs`);
- word-list construction: length filtering, frequency ordering and the top-N solutions (`src/words.rs`);
- the small histogram type `Counter` (`src/counter.rs`).

The modules follow the source files:

| module | file | contents |
|---|---|---|
| `Wrappers` | `wrappers.dfy` | `Option` and `Result` |
| `Letters` | `letters.dfy` | `Letter` (an index 0..25) and `Word`, with the byte, character and string conversions |
| `Feedback` | `feedback.dfy` | `LetterMatch`, `GuessResult`, the reference definition `Marks` of the feedback, the two-pass counting method `Check` proved equal to it, and `IsSolved` |
| `Game` | `game.dfy` | `State`, `GuessError`, `LetterState` and the class `Game` (history of guesses, solution, shared word list) |
| `Counter` | `counter.dfy` | the class `Counter`, a map from value to tally, specified by the ghost sequence of added values |
| `Sequences` | `sequences.dfy` | the order-preserving subsequence relation |
| `Words` | `words.dfy` | `WordSource`, `WordList`, line splitting and trimming, `GetWords`, the in-place frequency sort and `NewWordList` |
| `Solver` | `solver.dfy` | filtering and counting candidates, the integer score, `FindGuess` and the class `Solver` |

Scores are kept as exact integers. `compute_expected_n_solutions` returns the mean class size `total / N`. Here:

- `N` is the number of remaining candidates;
- `total` is the sum, over the candidates, of the number of candidates giving the same feedback (the sum of the squared class sizes).

The model keeps the numerator `total`. It compares means over the common denominator `N`, and the thresholds are the fractions 0, 1/8 and 1/4. With no candidates the mean is 0/0, a NaN; every comparison with it is false, so `find_guess` returns the first word. The model keeps this case instead of excluding it.

Where the source iterates a `HashSet`, the model takes the iteration order as an explicit sequence. This covers the solver's initial candidates and its vocabulary of guesses.

The random choice of the solution in `Game::new` becomes a parameter. Panics become preconditions:

- `from_byte`/`from_char` outside a..z;
- `set_solution` with a word that is not a solution;
- `unwrap` of the solver's own guess;
- slicing past the end of the word list;
- `possible_guesses[0]` in `find_guess` on an empty word list (src/solver.rs:91);
- `max` of an empty counter.

The model assumes that the word lists hold only lower-case a..z words of the game's letter count. The code needs this: `find_guess` converts every word of the list with `Word::from` (src/solver.rs:84-90), which panics on any other character, and `GuessResult::check` indexes each word up to the letter count.

For repeated letters the code credits Partial marks per letter, up to the number of the solution's non-exact occurrences of it. For guess "speed" against solution "erase" it gives `[Partial, Wrong, Partial, Partial, Wrong]` (`Feedback.SpeedAgainstErase`): "erase" has two 'e's, neither at an exact position, so both 'e's of "speed" are Partial. The general rule is `Feedback.PartialsCapped`: the Partial marks on a letter equal the guess's non-exact occurrences of it, capped by the solution's non-exact occurrences.

## Model

| member | source | states |
|---|---|---|
| Letters.FromByte | src/lib.rs:12-17 | a lower-case byte becomes the letter whose index is the byte minus 97 |
| Letters.FromChar | src/lib.rs:18-23 | a character in a..z becomes the letter that converts back to that character |
| Letters.AsIndex | src/lib.rs:24-26 | a letter's index is below 26 |
| Letters.LetterEquality | src/lib.rs:8-9 | two letters are equal exactly when their indices are equal |
| Letters.AsByte | src/lib.rs:27-29 | a letter's byte is in 'a'..'z' and converts back to the same letter |
| Letters.AsChar | src/lib.rs:30-32 | a letter's character is in 'a'..'z' |
| Letters.ByteRoundTrip | src/lib.rs:12-29 | `as_byte(from_byte(b)) == b` for every lower-case byte |
| Letters.CharRoundTrip | src/lib.rs:18-32 | `from_char(as_char(l)) == l` for every letter |
| Letters.NewWord | src/lib.rs:59-61 | `Word::new()` has length 0 and is empty |
| Letters.Len | src/lib.rs:62-64 | the number of letters of the word |
| Letters.IsEmpty | src/lib.rs:65-67 | a word is empty exactly when its length is 0 |
| Letters.At | src/lib.rs:97-102 | indexing inside the word yields the letter at that position |
| Letters.WordFromString | src/lib.rs:76-82 | the word has one letter per character, and the i-th letter converts back to the i-th character |
| Letters.WordToString | src/lib.rs:84-88 | the string has one lower-case character per letter, and the i-th character converts back to the i-th letter |
| Letters.StringRoundTrip | src/lib.rs:76-88 | string to word to string is the identity on lower-case strings |
| Letters.WordRoundTrip | src/lib.rs:76-88 | word to string to word is the identity on every word |
| Letters.WordFromStringInjective | src/lib.rs:76-82 | two lower-case strings give equal words exactly when they are equal |
| Feedback.Marks | src/game.rs:125-157 | the reference feedback has one mark per compared position |
| Feedback.Checked | src/game.rs:125-157 | the result keeps the guess, has `letter_count` marks, and a mark is Exact exactly when guess and solution agree at that position |
| Feedback.CountNonexactSolution | src/game.rs:133-137 | the first pass leaves, for each letter, the number of non-exact positions of the solution holding it |
| Feedback.GuessCountsStep | src/game.rs:139-152 | at each position the mark is Exact exactly when the letters agree, Partial exactly when they differ and the letter's Partial count is below its solution count, and the count grows exactly on a Partial mark, staying the non-exact guess occurrences so far capped by the solution's |
| Feedback.Check | src/game.rs:125-157 | the two-pass algorithm over the 26-entry count arrays returns exactly the reference feedback `Checked` |
| Feedback.AllExact | src/game.rs:158-168 | true exactly when every mark is Exact |
| Feedback.IsSolved | src/game.rs:158-168 | a result is solved exactly when every mark is Exact |
| Feedback.UnmatchedInSolutionAbsent | src/game.rs:133-137 | a letter absent from the solution has no unmatched solution occurrences |
| Feedback.PartialsCapped | src/game.rs:139-152 | among the first i positions, the Partial marks on a letter equal its non-exact guess occurrences, capped by its non-exact solution occurrences |
| Feedback.PartialsAtMostUnmatched | src/game.rs:139-152 | duplicate letters are never over-credited: the Partial marks on a letter never exceed its non-exact occurrences in the solution |
| Feedback.UnmatchedInGuessMonotone | src/game.rs:144-148 | the count of non-exact guess occurrences of a letter only grows along the word |
| Feedback.PartialsLeftmost | src/game.rs:144-151 | Partial marks go to the leftmost non-exact occurrences of a letter, and Wrong marks to the rightmost |
| Feedback.SelfCheckSolved | src/game.rs:125-168 | a word checked against its own text is solved |
| Feedback.SolvedIffEqual | src/game.rs:125-168 | on whole words, a guess is solved exactly when it equals the solution |
| Feedback.UnitTestSolved | src/game.rs:190-199 | "relax" against "relax" is five Exact marks |
| Feedback.UnitTestWrong | src/game.rs:201-210 | "relax" against "bbbbb" is five Wrong marks |
| Feedback.UnitTestPartial1 | src/game.rs:212-221 | "accca" against "aaabb" is Exact, Wrong, Wrong, Wrong, Partial |
| Feedback.UnitTestPartial2 | src/game.rs:223-232 | "acaaa" against "aabbb" is Exact, Wrong, Partial, Wrong, Wrong |
| Feedback.SpeedAgainstErase | src/game.rs:125-157 | "speed" against "erase" is Partial, Wrong, Partial, Partial, Wrong |
| Game.StateOf | src/game.rs:53-64 | Solved exactly when the last guess is solved; Failed exactly when the last guess is not solved and the tries are used up; an Unsolved round within its tries has a try left |
| Game.Game.GameState | src/game.rs:53-64 | Solved exactly when the last guess is all Exact; Failed exactly when the last guess is not and all tries are used; otherwise Unsolved, with a try left |
| Game.Pairs | src/game.rs:67-70 | the (letter, mark) pairs of one guess, position by position |
| Game.Merge | src/game.rs:72-78 | the state after one more mark: Exact if the mark or the earlier state is Exact, otherwise Partial if either is Partial, otherwise Eliminated; never Unknown |
| Game.MergeOrderFree | src/game.rs:67-80 | two marks of a letter give the same state in either order |
| Game.AccumulateMeaning | src/game.rs:65-82 | after folding the match table over all marks, a letter is present exactly when it was guessed; it is Exact if ever marked Exact, else Partial if ever marked Partial, else Eliminated |
| Game.AccumulateSummary | src/game.rs:65-82 | the same for every letter at once |
| Game.AccumulateSnoc | src/game.rs:71-79 | one more mark updates only its letter, through the match table |
| Game.AccumulateStep | src/game.rs:71-79 | folding the next mark of a guess updates only that letter, through the match table |
| Game.FlattenSnoc | src/game.rs:67 | the pairs of a longer history are those of the shorter one followed by the new guess's |
| Game.Game.constructor | src/game.rs:22-37 | a new game has no guesses, 5 tries, the given word list and the given solution |
| Game.Game.FromSource | src/game.rs:38-43 | the game of a word source: its letter count, the word list `WordList::from_source` builds (every word of the source's letter count a guess, its solutions the words among the first top-N of the frequency-sorted list, so the most frequent words with ties at the cutoff going to the words listed later), 5 tries, no guesses, and the given solution when it is an allowed one |
| Game.SourceRound | src/game.rs:23-43 | the word list `WordList::from_source` builds (every `IsTopList` property), all of whose words are playable, and a solution that is one of its allowed solutions: the given one whenever it is allowed |
| Game.ChooseSolution | src/game.rs:23-29 | requires a non-empty solution set, where the `unwrap` would panic; the drawn solution is one of the allowed solutions |
| Game.Game.SetSolution | src/game.rs:44-49 | requires an allowed solution; sets it and changes nothing else |
| Game.Game.Restart | src/game.rs:50-52 | empties the history and keeps the solution |
| Game.Game.Guess | src/game.rs:84-98 | a word outside the list gives InvalidGuess and a finished round gives GameFinished with its state, both leaving the history unchanged; otherwise the feedback against the solution is appended and returned; guessing the solution solves the round; the history never exceeds the tries |
| Game.Game.LetterStates | src/game.rs:65-83 | the map holds exactly the guessed letters, each with its summary: Exact if ever Exact, else Partial if ever Partial, else Eliminated |
| Counter.TallyCounts | src/counter.rs:13-18 | a value has a tally exactly when it was added, and the tally is the number of times it was added |
| Counter.FoldTally | src/counter.rs:19-24 | summing key times tally over the map gives the sum of the added values; summing the tallies gives their number |
| Counter.FoldRemove | src/counter.rs:19-24 | a map fold does not depend on the order the keys are taken in |
| Counter.FoldAdd | src/counter.rs:13-15 | adding a value adds exactly its weight to each fold |
| Counter.HasLeast | src/counter.rs:28-31 | a non-empty set of keys has a least element |
| Counter.ListingStep | src/counter.rs:28-31 | appending the least remaining key with its tally keeps the listing strictly ascending and complete for the keys taken so far |
| Counter.KeysOfListed | src/counter.rs:28-31 | every key of a listing appears at some position |
| Counter.ListingOfTally | src/counter.rs:28-31 | a listing of the map's entries pairs each added value with its number of occurrences, and lists every added value |
| Counter.Least | src/counter.rs:28-31 | the least key of a non-empty key set |
| Counter.Counter.constructor | src/counter.rs:8-12 | a new counter is empty |
| Counter.Counter.Add | src/counter.rs:13-15 | the tally of the value grows by one, or starts at one; every other key and tally is unchanged |
| Counter.Counter.Get | src/counter.rs:16-18 | None exactly when the value was never added; otherwise the number of times it was added |
| Counter.Counter.Sum | src/counter.rs:19-21 | the sum of all added values |
| Counter.Counter.Count | src/counter.rs:22-24 | the number of `add` calls |
| Counter.Counter.Max | src/counter.rs:25-27 | requires at least one `add`; the largest added value |
| Counter.Counter.AsVec | src/counter.rs:28-32 | each distinct added value once, with its tally, in strictly ascending order |
| Sequences.SubsequenceMembers | src/solver.rs:46-49 | every element of a subsequence is an element of the whole |
| Sequences.SubsequenceLength | src/solver.rs:46-49 | a subsequence is no longer than the whole |
| Sequences.SubsequenceSuffix | src/words.rs:81-90 | dropping the head of a subsequence keeps it a subsequence |
| Sequences.SubsequenceSkip | src/words.rs:81-90 | a subsequence of the tail is a subsequence of the whole |
| Words.WordSource.LetterCount | src/words.rs:34-40 | 5 for Wordle, the carried count for Scrabble and Dictionary |
| Words.WordSource.SolutionCount | src/words.rs:60-72 | 2315 for Wordle, the carried top-N for Scrabble and Dictionary |
| Words.WordList.IsValidGuess | src/words.rs:73-75 | true exactly when the word is in `words` |
| Words.WordList.IsValidSolution | src/words.rs:76-78 | true exactly when the word is in `allowed_solutions`; a valid solution is a valid guess |
| Words.Utf8Len | src/words.rs:85 | the byte length `len()` of a string lies between its character count and four times it |
| Words.Utf8LenLowercase | src/words.rs:85 | a lower-case a..z string has as many bytes as characters |
| Words.TrimStart | src/words.rs:84 | the result is a suffix of the input; it drops only white space and starts with a non-space |
| Words.TrimEnd | src/words.rs:84 | the result is a prefix of the input; it drops only white space and ends with a non-space |
| Words.Trim | src/words.rs:84 | the result is a prefix of the input after its leading white space, everything after the result is white space, and the result neither starts nor ends with white space |
| Words.TrimShape | src/words.rs:84 | dropping a leading run and then a trailing run of any character class leaves an inner slice flanked by those runs, with no such character at either end |
| Words.Split | src/words.rs:83 | splitting yields at least one part |
| Words.SplitJoin | src/words.rs:83 | joining the parts with the separator gives back the text, and no part contains the separator |
| Words.JoinSplit | src/words.rs:83 | joining the parts with the separator gives back the text |
| Words.SplitPiecesFree | src/words.rs:83 | no part contains the separator |
| Words.Trimmed | src/words.rs:84 | each line trimmed, in order |
| Words.SelectedInOrder | src/words.rs:81-90 | the kept words are a subsequence of the trimmed lines |
| Words.SelectedLength | src/words.rs:81-90 | every kept word has the requested byte length |
| Words.SelectedComplete | src/words.rs:81-90 | every trimmed line of the requested length is kept |
| Words.SelectedAppend | src/words.rs:83-88 | the words kept from two runs of lines are those kept from each, in order |
| Words.SelectedSnoc | src/words.rs:83-88 | one more line adds its trimmed text at the end exactly when it has the requested length |
| Words.GetWords | src/words.rs:81-90 | the loop returns exactly the trimmed lines of the requested length, in order |
| Words.WordFrequency | src/words.rs:104-106 | a word missing from the table has frequency 0 |
| Words.UnknownWordsLast | src/words.rs:104-111 | after the sort, a word missing from the table comes after every word with a positive frequency |
| Words.SwapAdjacent | src/words.rs:109 | exchanges two neighbours and keeps the multiset |
| Words.SinkStep | src/words.rs:109 | swapping the entry being inserted past a more frequent neighbour keeps the others in order and the entry below everything after it |
| Words.SinkDone | src/words.rs:109 | once its left neighbour is no more frequent, the inserted entry leaves one more entry in ascending order |
| Words.OfFrequencyMembers | src/words.rs:109 | a word is in the group of frequency f exactly when it is in the list and has frequency f |
| Words.OfFrequencyAppend | src/words.rs:109 | taking a frequency group distributes over concatenation |
| Words.SwapKeepsGroups | src/words.rs:109 | swapping two neighbours of different frequencies keeps the order of the words within every frequency |
| Words.InsertNext | src/words.rs:109 | one round of the insertion sort extends the ascending prefix by one entry, keeps the multiset and keeps the order within every frequency |
| Words.SortByKeyFrequency | src/words.rs:109 | a stable sort: a permutation of the input in ascending frequency in which words of equal frequency keep their input order |
| Words.Reversed | src/words.rs:110 | the k-th element of the result is the k-th from the end of the input |
| Words.Reverse | src/words.rs:110 | reverses the array in place |
| Words.ReversedMultiset | src/words.rs:110 | reversing keeps the multiset |
| Words.OfFrequencyReversed | src/words.rs:110 | reversing a list reverses each of its frequency groups |
| Words.SortByFrequency | src/words.rs:108-111 | a permutation of the input in non-increasing frequency, with the words of each frequency in the reverse of their input order |
| Words.SetOfSeqSize | src/words.rs:52-57 | the set of a list is no larger than the list, and as large when its words are distinct |
| Words.TopSlice | src/words.rs:54-57 | the first n words of the sorted list are among its words and are at least as frequent as every word after them |
| Words.SameElements | src/words.rs:49-59 | reordering a list keeps its set of words |
| Words.TopSize | src/words.rs:54-57 | the first n entries hold at most n words, exactly n when no word repeats |
| Words.TopWordList | src/words.rs:49-59 | the word list built from the sorted words satisfies every property of `WordList::new` listed below |
| Words.TopNonEmpty | src/words.rs:54-57 | taking at least one word gives at least one solution |
| Words.BeforeInGroup | src/words.rs:108-111 | a word listed before every occurrence of another stays before it in its frequency group |
| Words.ReversedBefore | src/words.rs:110 | a word before every occurrence of another in the reversal comes after all of them in the original |
| Words.AfterFromGroup | src/words.rs:108-111 | an order within a frequency group is an order in the whole list |
| Words.TopTies | src/words.rs:49-59 | among words of equal frequency, those inside the top n of the sorted list are listed in the input after those left out |
| Words.NewWordList | src/words.rs:49-59 | requires n no larger than the list; `words` is the set of the input; the solutions are exactly the words among the first n entries of the input sorted by `sort_by_frequency` (same words, non-increasing frequency, each frequency's words in reverse input order), even when words repeat; so they are a subset of the words, at most n of them (exactly n for distinct words), never fewer than one when n > 0, at least as frequent as every other word, and, among words of equal frequency, listed in the input after every word left out |
| Words.FromSource | src/words.rs:60-72 | the word list of the source's words of its letter count with the source's top-N solutions (2315 for Wordle, 5 letters): all of `NewWordList`'s properties, so the solutions are the words among the first top-N of the frequency-sorted words, the most frequent ones, exactly top-N of them when no word repeats |
| Words.OfFrequencyAll | src/words.rs:108-111 | a list whose words all have one frequency is its own group |
| Words.SortedUniform | src/words.rs:108-111 | when every word has the same frequency, sorting then reversing leaves the reversed list |
| Words.TopListUniform | src/words.rs:49-59 | when every word has the same frequency, the solutions are the words among the last n entries of the list |
| Words.TopListWithRepeats | src/words.rs:49-59 | from ["a", "a", "b"] with no known frequencies, the top two solutions are exactly "a" and "b" |
| Solver.SolverMode.Threshold | src/solver.rs:4-21 | the thresholds are 0 for Best, 1/8 for Good and 1/4 for Fast |
| Solver.MeanWithin | src/solver.rs:96 | true exactly when the mean `sum / count` is at most `bound` times the threshold, as real numbers; never when there are no candidates (the NaN mean) |
| Solver.FilteredMembers | src/solver.rs:46-49 | a candidate survives filtering exactly when checking the guess against it reproduces the feedback |
| Solver.FilteredInOrder | src/solver.rs:46-49 | filtering keeps the survivors in their original order, so the result is no longer than the input |
| Solver.FilteredIdempotent | src/solver.rs:46-49 | filtering twice by the same feedback is filtering once |
| Solver.FilteredAppend | src/solver.rs:46-49 | filtering two runs of candidates filters each, in order |
| Solver.FilteredSnoc | src/solver.rs:46-49 | one more candidate is kept at the end exactly when it reproduces the feedback |
| Solver.FilterSolutions | src/solver.rs:46-49 | the `retain` loop keeps exactly the filtered candidates |
| Solver.CountSolutions | src/solver.rs:51-59 | the count is the length of the filtered list |
| Solver.FilterAllKeepsSolution | src/solver.rs:31-44 | a solution that every past feedback was computed against is never filtered out |
| Solver.FilterAllSnoc | src/solver.rs:35-38 | one more guess filters the previous candidates by its feedback |
| Solver.FilterAllPrefix | src/solver.rs:35-38 | the candidates after k + 1 guesses are those after k filtered by guess k |
| Solver.FilterStep | src/solver.rs:120-121 | one more feedback keeps an ordered selection of the candidates, within any set that held them, and keeps every consistent candidate |
| Solver.FilterAllShrinks | src/solver.rs:31-44 | the candidates after any history are among the initial ones |
| Solver.ClassSizes | src/solver.rs:62-70 | one class size per candidate |
| Solver.ClassSizesStep | src/solver.rs:62-70 | the class sizes of the first i + 1 candidates extend those of the first i by the count for candidate i |
| Solver.SumBounds | src/solver.rs:71-76 | a sum of N values between lo and hi lies between N * lo and N * hi |
| Solver.ScoreBounds | src/solver.rs:61-78 | every candidate is in its own class, so the score numerator lies between N and N * N and the mean between 1 and N |
| Solver.ComputeExpectedN | src/solver.rs:61-78 | returns the sum of the class sizes and the number of candidates |
| Solver.BestNeverFires | src/solver.rs:94-98 | with the Best threshold of 0, no word is played early while candidates remain |
| Solver.ThresholdsNested | src/solver.rs:4-6 | a word within the Best threshold is within Good, and one within Good is within Fast |
| Solver.Scores | src/solver.rs:94-95 | one score per word of the vocabulary |
| Solver.ScoreAt | src/solver.rs:94-95 | the score of word i is the sum of its class sizes |
| Solver.Candidacy | src/solver.rs:100-101 | one candidacy flag per word of the vocabulary |
| Solver.FirstFiringUnique | src/solver.rs:94-98 | at most one word is the first within the threshold, and none is when no word is |
| Solver.PreferredStep | src/solver.rs:99-107 | the replacement rule keeps the best word preferred: a strictly lower score always wins, and an equal score wins only as a candidate over a non-candidate; the best score never increases |
| Solver.ScanStep | src/solver.rs:94-107 | after a word that is not within the threshold, the kept word and its score change exactly by the replacement rule and stay preferred among the words seen |
| Solver.ScanDone | src/solver.rs:92-109 | after the whole vocabulary without an early return, no word is within the threshold and the kept word is the preferred one |
| Solver.FindGuess | src/solver.rs:80-110 | the lone candidate when one is left; otherwise the first word within the threshold; otherwise the preferred word, or the first word when no candidates are left; always a word of the vocabulary or a candidate |
| Solver.ListedPlayable | src/solver.rs:84-90 | words taken from the game's list are playable |
| Solver.PlayableCheckable | src/solver.rs:64 | playable candidates can be checked against a guess of the game's length |
| Solver.Solver.constructor | src/solver.rs:31-44 | the candidates are the allowed solutions filtered by every past guess, in history order; `first_guess` is true exactly when there is no history |
| Solver.Solver.NextGuess | src/solver.rs:113-119 | "roast" on the first call; otherwise the word `find_guess` chooses over the vocabulary and the current candidates (the lone candidate, the first word within the threshold, or the preferred word); always a word of the list |
| Solver.Solver.Play | src/solver.rs:115-121 | plays a word of the list in an open round: the history grows by exactly its feedback against the unchanged solution, `first_guess` is cleared, and the candidates become the old ones filtered by that feedback |
| Solver.Solver.Guess | src/solver.rs:112-122 | changes only the candidates, `first_guess` and the game's history: appends exactly the feedback of the played word against the unchanged solution ("roast" first, then `find_guess`'s word over the old candidates) and clears `first_guess`; the new candidates are the old ones filtered by that feedback, so a subsequence that still contains the solution if it did before, and they stay the history-filtered allowed solutions |

## Left out

- Floating point. The mean and the thresholds are exact fractions over the common denominator `N`. They agree with the `f64` arithmetic as long as the sums stay far below 2^53 and means a distance of 1/N apart stay distinguishable, which holds for word lists of realistic size.
- `HashSet` iteration order. Where it decides a result (the solver's candidate order, the vocabulary order, which word `find_guess` tries first), it is an explicit sequence parameter.
- Game.ChooseSolution: the random draw (`thread_rng`) is not modelled; it is any allowed solution, and `Game::new` takes the solution as a parameter.
- druid's `Data` and `im::Vector`, and `Rc` sharing. They are plain sequences and a read-only value.
- The embedded data files and the frequency-table parser (`include_str!`, `lazy_static`, its parse panic). The texts are parameters, and the frequency table is a map whose missing words have frequency 0.
- `src/main.rs` (GUI), `src/benchmark.rs` and `src/solvefirst.rs` (command-line drivers) are not part of this model.
- Feedback.Check: does not model the wrap-around of the `u8` counters, because it needs more than 255 copies of one letter in a word.
- Counter.Counter.Sum: does not model `usize` overflow of the products and the sum, because integers are unbounded.
- Counter.Counter.AsVec: builds the ascending listing by repeatedly taking the least remaining key instead of collecting and calling `sort_by_key`; the result is the same because keys are distinct.
- Words.IsWhitespace is the Unicode White_Space set written out by code point; `split` works on characters rather than UTF-8 bytes, and the words are lower-case ASCII.
- Solver.Solver.Guess: requires that the round is still open and that "roast" is a word of the list, where the source would panic on the `unwrap`.
- Game.Game.FromSource: requires a positive number of solutions, where `Game::new` would panic on an empty solution set.
