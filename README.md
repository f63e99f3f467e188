# Distle: edit distance and the guessing player, in Dafny

Distle is a word game: the player guesses a word and, when the guess is wrong,
is told the edit distance to the secret word and the top-down list of edit
operations (`R` replacement, `T` transposition of two adjacent characters,
`I` insertion, `D` deletion) that turns the guess into the secret. This project
models the two core classes of the repository.

- `EditDistance.dfy` (module `EditDistance`) models `EditDistanceUtils`.
  - `Cell` is the value of one table cell: the restricted Damerau-Levenshtein (optimal string alignment) recurrence, including the sentinel 1000 the source gives an unavailable transposition.
  - `EditDistTable` fills a fresh `array2<int>` in place. It has the same gutters, the same row-by-row order and the same `min` of four candidates as the source. It is proved to produce `Cell` everywhere.
  - `TransformationList` is the backward walk over a table. Its branches come in the same order as the source's: match, then `R`, `T`, `I`, `D`. It is proved equal to the specification function `Walk`.
  - `Transformations` is the walk over the table computed for two words. It models the two-argument overload.
  - `EditDistance` models the distance entry point with its shortcuts.
- `Player.dfy` (module `Player`) models `DistlePlayer`.
  - The class keeps the source's fields `lengthOfWord`, `guessNumber`, `topGuess` and `dictionary`.
  - The module-level functions `LengthWord`, `FilterByWordLength`, `Candidates` and `Feedback` specify the private helpers and the dictionary update.

Operations are the datatype `EditOp`. `Tag` maps each one to the one-letter string the source uses. The feedback list the player receives stays a `seq<string>`, as in the source. Feedback is compared with `Tags(...)` of the computed walk, the way the source compares two `List<String>`.

## Model

| member | source | states |
|---|---|---|
| EditDistance.Min4 | Worlde-AI/src/main/distle/EditDistanceUtils.java:69-73 | the result is no larger than any of the four arguments and is one of them |
| EditDistance.Cell | Worlde-AI/src/main/distle/EditDistanceUtils.java:16-59 | every cell's value lies between 0 and the longer of the two prefix lengths |
| EditDistance.MismatchCost | Worlde-AI/src/main/distle/EditDistanceUtils.java:39-54 | the cost at a mismatched cell lies between 0 and the longer prefix length, although the sentinel 1000 is one of its candidates |
| EditDistance.GutterCells | Worlde-AI/src/main/distle/EditDistanceUtils.java:20-28 | row 0 holds the column index and column 0 holds the row index |
| EditDistance.MatchIsFree | Worlde-AI/src/main/distle/EditDistanceUtils.java:34-37 | when the characters agree, the cell equals its diagonal neighbour |
| EditDistance.MismatchIsMinimum | Worlde-AI/src/main/distle/EditDistanceUtils.java:39-54 | on a mismatch, the cell is at most delete, insert and replace plus one, and at most transpose plus one when the last two characters are swapped; it equals one of these candidates (transpose only when the pair is swapped), so the sentinel never wins for words of at most 1000 letters |
| EditDistance.SelfCellIsZero | Worlde-AI/src/main/distle/EditDistanceUtils.java:34-37 | a word against itself costs zero at every diagonal cell |
| EditDistance.CellSymmetric | Worlde-AI/src/main/distle/EditDistanceUtils.java:16-59 | the cost of turning `s0[..i]` into `s1[..j]` equals the cost of the reverse direction |
| EditDistance.ZeroCellMeansEqualPrefixes | Worlde-AI/src/main/distle/EditDistanceUtils.java:16-59 | a cell is zero only when the two prefixes are the same string |
| EditDistance.EditDistTable | Worlde-AI/src/main/distle/EditDistanceUtils.java:16-59 | the fresh `(|s0|+1) x (|s1|+1)` array holds `Cell` at every position |
| EditDistance.FillRow | Worlde-AI/src/main/distle/EditDistanceUtils.java:31-56 | one pass of the outer loop fills its row with `Cell` and leaves every other row unchanged |
| EditDistance.FillCell | Worlde-AI/src/main/distle/EditDistanceUtils.java:34-54 | one cell is set to `Cell` from its filled neighbours and nothing else changes |
| EditDistance.TagInjective | Worlde-AI/src/main/distle/EditDistanceUtils.java:80-85 | distinct operations have distinct tags |
| EditDistance.TagsInjective | Wordle-AI/src/main/distle/DistlePlayer.java:141 | two operation lists are equal exactly when their tag lists are |
| EditDistance.CellTableCoherent | Worlde-AI/src/main/distle/EditDistanceUtils.java:113-163 | for words of at most 1000 letters, every cell of the computed table except (0,0) is explained by a match or by one of the four operations, so each pass of the walk takes a branch |
| EditDistance.Choice | Worlde-AI/src/main/distle/EditDistanceUtils.java:116-162 | the walk's move stays inside the table, and the cost drops by exactly what it emits (0 for a match, 1 otherwise) |
| EditDistance.Walk | Worlde-AI/src/main/distle/EditDistanceUtils.java:100-169 | the walk from a cell emits as many operations as the cell's cost |
| EditDistance.WalkNetLength | Worlde-AI/src/main/distle/EditDistanceUtils.java:100-169 | insertions minus deletions along the walk from `(i, j)` is `j - i` |
| EditDistance.TieBreak | Worlde-AI/src/main/distle/EditDistanceUtils.java:86-89 | a match is taken exactly when the characters agree. At a mismatch: `R` exactly when replacement fits; `T` exactly when it does not but transposition does; `I` when neither of those fits but insertion does; otherwise `D` |
| EditDistance.TransformationList | Worlde-AI/src/main/distle/EditDistanceUtils.java:100-169 | the loop over any array holding a coherent table returns exactly the walk from the final cell to (0,0) |
| EditDistance.Transformations | Worlde-AI/src/main/distle/EditDistanceUtils.java:204-207 | the list for two words has length equal to the final cell, and its insertions minus its deletions equals `|s1| - |s0|` |
| EditDistance.TransformationsBetween | Worlde-AI/src/main/distle/EditDistanceUtils.java:204-207 | filling a fresh table and walking it returns `Transformations(s0, s1)` |
| EditDistance.TransformationsOfSelf | Worlde-AI/src/main/distle/EditDistanceUtils.java:204-207 | a word needs no operation to become itself |
| EditDistance.EditDistance | Worlde-AI/src/main/distle/EditDistanceUtils.java:180-199 | the shortcuts for equal words and an empty word agree with the table's final cell |
| EditDistance.DistanceSymmetric | Worlde-AI/src/main/distle/EditDistanceUtils.java:180-199 | the distance is the same in both directions |
| EditDistance.DistanceZeroIffEqual | Worlde-AI/src/main/distle/EditDistanceUtils.java:180-199 | the distance is zero exactly when the words are equal |
| Player.Frequency | Wordle-AI/src/main/distle/DistlePlayer.java:112-113 | the number of occurrences is at most the list length, and it is zero exactly when the tag is absent |
| Player.FrequencyOfTags | Wordle-AI/src/main/distle/DistlePlayer.java:112-113 | counting a tag in the reported list counts the operation it spells |
| Player.LengthWord | Wordle-AI/src/main/distle/DistlePlayer.java:111-115 | the inferred length differs from the guess's length by at most the number of reported operations |
| Player.LengthWordOfSecret | Wordle-AI/src/main/distle/DistlePlayer.java:111-115 | for honest feedback about a secret word, the inferred length is that word's length |
| Player.FilterByWordLength | Wordle-AI/src/main/distle/DistlePlayer.java:123-128 | the result is a subset of the dictionary, and a word is in it exactly when it is in the dictionary and has the given length |
| Player.Candidates | Wordle-AI/src/main/distle/DistlePlayer.java:137-147 | the candidates are a subset of the dictionary |
| Player.Feedback | Wordle-AI/src/main/distle/DistlePlayer.java:92-101 | the dictionary after feedback is a subset of the one before |
| Player.LengthFilterRedundant | Wordle-AI/src/main/distle/DistlePlayer.java:94-98 | the length filter removes no candidate: filtering then matching equals matching alone |
| Player.FeedbackCharacterised | Wordle-AI/src/main/distle/DistlePlayer.java:92-101 | a word survives feedback exactly when it is in the dictionary and its own operation list equals the feedback |
| Player.FeedbackOnOperations | Wordle-AI/src/main/distle/DistlePlayer.java:141 | for feedback spelled from `ops`, a word survives exactly when its walk equals `ops` |
| Player.FeedbackKeepsSecret | Wordle-AI/src/main/distle/DistlePlayer.java:92-101 | honest feedback about the secret word never removes the secret |
| Player.FeedbackIdempotent | Wordle-AI/src/main/distle/DistlePlayer.java:92-101 | applying the same feedback twice gives the same dictionary as applying it once |
| Player.FeedbackMonotone | Wordle-AI/src/main/distle/DistlePlayer.java:137-147 | a larger dictionary keeps at least what a smaller one keeps |
| Player.DistlePlayer.constructor | Wordle-AI/src/main/distle/DistlePlayer.java:34-36 | a new player has the default field values: zero counters, no top guess, an empty dictionary |
| Player.DistlePlayer.StartNewGame | Wordle-AI/src/main/distle/DistlePlayer.java:49-55 | the dictionary is the given one; the inferred length is 0, the guess number is 1 and there is no top guess |
| Player.DistlePlayer.MakeGuess | Wordle-AI/src/main/distle/DistlePlayer.java:64-73 | the guess number goes up by one. The first guess is "heaven" and leaves the top guess alone; a later guess is a dictionary word and becomes the top guess. Dictionary and length are unchanged |
| Player.DistlePlayer.GetFeedback | Wordle-AI/src/main/distle/DistlePlayer.java:92-101 | the inferred length is recorded, the dictionary becomes `Feedback` of the old one, and the guess number and top guess are unchanged |
| Player.DistlePlayer.FindCandidate | Wordle-AI/src/main/distle/DistlePlayer.java:137-147 | the loop over the dictionary returns exactly `Candidates` |

## Left out

- `main` (EditDistanceUtils.java:210-219) only prints two example lists, so it is not part of this model.
- EditDistance.Transformations, EditDistance.TransformationsBetween and the player's `Candidates`, `Feedback`, `GetFeedback` and `FindCandidate` require words of at most 1000 letters (`Walkable`, `Playable`). Above that, the unavailable-transposition sentinel 1000 can become a cell's value with no neighbour explaining it. For example, with 1001 `a`s against 1001 `b`s the final cell is 1000. The source's loop then takes no branch and never ends.
- EditDistance.TransformationList requires a coherent table (every cell explained) held in the array; on any other array the source's loop may make no progress. The deletion branch is taken without testing its condition, because `Coherent` proves that the condition holds there.
- EditDistance.Cell is not proved to be the minimum over all edit scripts. The model proves that the table satisfies the recurrence and that the walk retraces it.
- EditDistance.EditDistance: the source tests emptiness with reference equality (`s1 == ""`). The model tests emptiness by value. A non-interned empty string falls through to the table, which gives the same value, so the contract holds either way.
- EditDistance.EditDistTable: the source's jagged `int[][]` is modelled as a rectangular `array2<int>`.
- Player.DistlePlayer.MakeGuess: the random choice (`new Random().nextInt` and a stream skip) becomes an arbitrary choice of a dictionary word. Its distribution is not modelled. The method requires a non-empty dictionary after the first guess, where the source's `nextInt(0)` throws.
- Player.DistlePlayer.constructor: the `openingWord` field is set by the source's constructor but never read, so it is left out. The fields the source leaves at their Java defaults are stated explicitly. A `null` dictionary before `startNewGame` is modelled as the empty set.
- Player.DistlePlayer.StartNewGame ignores `maxGuesses`, as the source does.
- Player.DistlePlayer.GetFeedback ignores `editDistance`, as the source does.
- `HashSet` and stream internals are not modelled; only the resulting sets are. The iteration order of `findCandidate` is an arbitrary choice, which does not matter because the result is a set.
- Integers are unbounded. 32-bit overflow of `guessNumber` or of lengths is not modelled.
