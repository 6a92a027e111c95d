# Heredity, tic-tac-toe and PageRank in Dafny

This project models the computational core of three small programs and proves what they promise:

- **heredity**
  - Inputs: a pedigree of people, each with an optional mother and father and an optionally observed trait.
  - Enumeration: the program walks every hypothesis. A hypothesis says who carries one copy of the gene, who carries two and who shows the trait. Hypotheses that contradict an observed trait are skipped.
  - Scoring: each hypothesis gets a joint probability. It is built from the gene and trait tables and a mutation rate.
  - Tables: those joint probabilities are accumulated into per-person gene and trait tables. The tables are then normalised to posterior marginals.
- **tictactoe**
  - The board is a 3×3 grid that moves write in place.
  - The model covers whose turn it is, the open squares, making a move and detecting a winner, a draw or an unfinished game.
  - Minimax search chooses a move.
- **pagerank**
  - Crawling keeps only links to other pages of the corpus.
  - The damped transition model gives the distribution over a surfer's next page.
  - A key is drawn from a distribution by a running total.

Modules:

- `Wrappers`: `Option`.
- `PowerSets`: duplicate-free lists, list difference and the list of all subsets.
- `Heredity`: the probability tables, `pass_down`, the per-person factor, the joint probability and the hypothesis enumeration.
- `HeredityTable`: the `probabilities` table as a class with `update` and `normalize`.
- `HeredityInference`: the triple loop of `main` and what the final table means.
- `TicTacToe`: the board and the game.
- `WeightedDraw`: `weighted_random_by_dct`.
- `PageRank`: `crawl` and `transition_model`.

Code that works by mutation stays imperative:

- the `probabilities` dictionary is a class whose methods reassign its map;
- the board is an `array2` that `result` writes;
- the loops of `main`, `player`, `actions`, `minimaxValue`, `minimax`, `transition_model` and `weighted_random_by_dct` are `while`/`for` loops.

Each method is proved against a specification function, and the promises of the program are lemmas about those functions.

Modelling choices:

- Probabilities are exact reals.
- Python's dictionaries become either a sequence of keys in insertion order together with a map, or a pedigree sequence.
- `-math.inf` and `math.inf` in the minimax code become the sentinels -2 and 2, which lie outside every utility.
- Exceptions become result values:
  - `result` returns `Occupied` or `OffBoard`;
  - `winner` returns `NotOver`;
  - `transition_model` returns `None` on a `KeyError`;
  - `normalize` returns `ok == false` and describes the partly divided table.

## Model

| member | source | states |
|---|---|---|
| `PowerSets.PowerSet` | heredity/heredity.py:129-138 | the list of subsets has 2^n entries, each a subset of the names |
| `PowerSets.PowerSetMembership` | heredity/heredity.py:129-138 | a set is listed exactly when it is a subset of the names |
| `PowerSets.PowerSetComplete` | heredity/heredity.py:129-138 | every subset of the names is listed |
| `PowerSets.PowerSetDistinct` | heredity/heredity.py:129-138 | over distinct names every subset is listed once |
| `PowerSets.Without` | heredity/heredity.py:83 | `names - one_gene`: exactly the names not in `one_gene`, still without duplicates |
| `Heredity.GenePrior` | heredity/heredity.py:11-15 | `PROBS["gene"][g]` is a probability strictly between 0 and 1 |
| `Heredity.TraitGiven` | heredity/heredity.py:17-36 | `PROBS["trait"][g][t]` is a probability strictly between 0 and 1 |
| `Heredity.TablesAreDistributions` | heredity/heredity.py:8-39 | the gene prior sums to 1 and every trait row sums to 1 |
| `Heredity.PassDown` | heredity/heredity.py:153-164 | for a mutation rate in [0, 1] the result is a probability, in (0, 1) for a rate in (0, 1) |
| `Heredity.PassDownComplement` | heredity/heredity.py:153-164 | passing and not passing sum to 1; 1 copy passes with 0.5, 2 copies with 1 - m, 0 copies with m |
| `Heredity.ChildGeneChance` | heredity/heredity.py:176-193 | the chance that parents with `mg` and `fg` copies have a child with `g` copies: both pass, exactly one passes, or neither (no contract of its own; see the next two rows) |
| `Heredity.ChildGeneChanceSumsToOne` | heredity/heredity.py:176-193 | the child's chances of 2, 1 and 0 copies sum to 1 for any parents |
| `Heredity.ChildGeneChanceBounds` | heredity/heredity.py:176-193 | each child gene chance is positive and at most 1 |
| `Heredity.Factor` | heredity/heredity.py:169-198 | the factor a person adds lies strictly between 0 and 1 |
| `Heredity.GenesOf` | heredity/heredity.py:172 | the copy count a hypothesis gives a name: 2 in `two_genes`, else 1 in `one_gene`, else 0 (no contract of its own) |
| `Heredity.ParentGenes` | heredity/heredity.py:181-182 | a parent's copy count by the same test; an absent parent counts 0 copies (no contract of its own) |
| `Heredity.IsFounder` | heredity/heredity.py:170 | `mother is father is None`: both parents are absent (no contract of its own) |
| `Heredity.Factors` | heredity/heredity.py:167-198 | the factor of each person, in pedigree order (no contract of its own) |
| `Heredity.Product` | heredity/heredity.py:200 | `reduce(mul, fs, 1)`: 1 for no factors, else the product of the earlier ones times the last (no contract of its own); see `ProductBounds` |
| `Heredity.FounderFactor` | heredity/heredity.py:170-174 | a founder's factor is the gene prior times the trait likelihood |
| `Heredity.Distinct` | heredity/heredity.py:167-198 | the factor set: no duplicates and exactly the values added |
| `Heredity.ProductBounds` | heredity/heredity.py:200 | `reduce(mul, …, 1)` of probabilities in (0, 1] lies in (0, 1] |
| `Heredity.Joint` | heredity/heredity.py:141-200 | as written, the product of the distinct factors is a probability in (0, 1] |
| `Heredity.JointProbability` | heredity/heredity.py:166-200 | the loop filling the factor set and folding it yields `Joint` |
| `Heredity.JointProduct` | heredity/heredity.py:141-151 | the joint probability the docstring describes is a probability in (0, 1] |
| `Heredity.DistinctOfNoDup` | heredity/heredity.py:167-198 | with no equal factors the set holds every factor in order |
| `Heredity.JointAgreesOnDistinctFactors` | heredity/heredity.py:141-200 | when no two factors are equal the code computes the intended joint probability |
| `Heredity.TrioJointCollapses` | heredity/heredity.py:167-200 | two founders with equal factors lose one factor: the code's value differs from the intended one |
| `Heredity.Score` | heredity/heredity.py:141-200 | a hypothesis is scored either by `joint_probability` as written or by the corrected product over every person; both are probabilities in (0, 1] |
| `Heredity.FailsEvidence` | heredity/heredity.py:73-79 | some person with an observed trait disagrees with the trait set (no contract of its own; `InTraitLoop` and `HypothesesAreAdmissible` state its use) |
| `Heredity.Pairs` | heredity/heredity.py:83-86 | the hypotheses the innermost loop visits: one per `two_genes` set, with the given `one_gene` and `have_trait` (no contract of its own); see `InPairs` |
| `Heredity.GeneLoop` | heredity/heredity.py:82-86 | the hypotheses of the two gene loops, `two_genes` ranging over the subsets of the names outside `one_gene` (no contract of its own); see `InGeneLoop` |
| `Heredity.TraitLoop` | heredity/heredity.py:70-86 | the hypotheses of the three loops, skipping trait sets that fail the evidence (no contract of its own); see `InTraitLoop` |
| `Heredity.Hypotheses` | heredity/heredity.py:68-86 | every hypothesis `main` scores, in visiting order (no contract of its own); see `HypothesesAreAdmissible` |
| `Heredity.Admissible` | heredity/heredity.py:68-86 | three subsets of the names, with `two_genes` outside `one_gene` and the trait set passing the evidence filter (no contract of its own) |
| `Heredity.InPairs` | heredity/heredity.py:83-86 | a hypothesis is visited by the inner loop iff it has that `one_gene`, that `have_trait` and a listed `two_genes` |
| `Heredity.InGeneLoop` | heredity/heredity.py:82-86 | a hypothesis is visited by the two gene loops iff its `one_gene` is one of those listed and its `two_genes` is in the powerset of the names outside `one_gene` |
| `Heredity.InTraitLoop` | heredity/heredity.py:70-86 | a hypothesis is visited iff its trait set is listed and passes the evidence filter and its gene sets are as above |
| `Heredity.HypothesesAreAdmissible` | heredity/heredity.py:68-86 | the visited hypotheses are exactly those whose three sets are subsets of the names, whose trait set agrees with every observed trait and whose `two_genes` avoids `one_gene` |
| `Heredity.PairsDistinct` | heredity/heredity.py:83-86 | the inner loop visits no hypothesis twice |
| `Heredity.GeneLoopDistinct` | heredity/heredity.py:82-86 | the two gene loops visit no hypothesis twice |
| `Heredity.TraitLoopDistinct` | heredity/heredity.py:70-86 | the three loops visit no hypothesis twice |
| `Heredity.HypothesesDistinct` | heredity/heredity.py:68-86 | over unique names every admissible hypothesis is scored exactly once |
| `Heredity.HypothesesNonEmpty` | heredity/heredity.py:70-80 | the observed traits themselves pass the filter, so some hypothesis is visited |
| `HeredityTable.GeneDist.Plus` | heredity/heredity.py:215 | `+= p` raises the chosen gene cell by `p` and leaves the others |
| `HeredityTable.TraitDist.Plus` | heredity/heredity.py:216 | `+= p` raises the chosen trait cell by `p` and leaves the other |
| `HeredityTable.GeneDist.Over` | heredity/heredity.py:226-230 | `/= total` on every gene cell (no contract of its own); see `NormalizedAt` |
| `HeredityTable.TraitDist.Over` | heredity/heredity.py:226-230 | `/= total` on both trait cells (no contract of its own); see `NormalizedAt` |
| `HeredityTable.ZeroCells` | heredity/heredity.py:52-66 | the initial table has exactly one entry per person |
| `HeredityTable.Normalized` | heredity/heredity.py:219-230 | an entry with both totals non-zero, each distribution divided by its own total (no contract of its own; see the `Normalized…` lemmas) |
| `HeredityTable.HalfNormalized` | heredity/heredity.py:219-230 | an entry whose normalising raised on the trait total: gene cells divided if their total was non-zero, trait cells untouched (no contract of its own; used by `Table.Normalize`) |
| `HeredityTable.Updated` | heredity/heredity.py:203-216 | `update` keeps the people of the table |
| `HeredityTable.UpdatedOnlyChosenCells` | heredity/heredity.py:203-216 | exactly one gene cell and one trait cell per person grow by `p`; all other cells are unchanged |
| `HeredityTable.NormalizedSumsToOne` | heredity/heredity.py:219-230 | after `normalize` each distribution sums to 1 |
| `HeredityTable.NormalizedAt` | heredity/heredity.py:219-230 | each normalised cell is its old value over the old total |
| `HeredityTable.NormalizedKeepsProportions` | heredity/heredity.py:219-230 | normalising keeps every ratio between cells |
| `HeredityTable.NormalizedCells` | heredity/heredity.py:219-230 | `normalize` keeps the people of the table |
| `HeredityTable.NormalizedCellsAt` | heredity/heredity.py:219-230 | each person's entry is normalised on its own |
| `HeredityTable.Table.constructor` | heredity/heredity.py:52-66 | the table starts with every cell of every person at 0 |
| `HeredityTable.Table.Update` | heredity/heredity.py:203-216 | the in-place loop leaves the table equal to `Updated` of the old table |
| `HeredityTable.Table.Normalize` | heredity/heredity.py:219-230 | `ok` iff every entry has a non-zero total; then the table is normalised, otherwise it stops at the first zero total with earlier entries divided and later ones untouched |
| `HeredityInference.Accumulate` | heredity/heredity.py:82-90 | repeated `update` with each hypothesis's score, as written or corrected, keeps the people of the table |
| `HeredityInference.Mass` | heredity/heredity.py:82-90 | under either scoring the total score of the hypotheses is non-negative, and positive when any hypothesis is visited |
| `HeredityInference.AccumulateIsMass` | heredity/heredity.py:203-216 | under either scoring each accumulated cell is its start value plus the total score of the hypotheses choosing it |
| `HeredityInference.MassSplits` | heredity/heredity.py:203-216 | per person the three gene cells, and the two trait cells, split the whole mass |
| `HeredityInference.AccumulatedCell` | heredity/heredity.py:52-90 | under either scoring, from the zero table each cell holds the score mass of its hypotheses and each distribution the whole mass |
| `HeredityInference.AccumulatedHasMass` | heredity/heredity.py:68-93 | over unique names no total is 0, so `normalize` never divides by zero |
| `HeredityInference.Posterior` | heredity/heredity.py:52-93 | the normalised table, one entry per person: with `AsWritten` the one `main` prints (scores from `joint_probability` as written), with `Corrected` the posterior the heredity model defines |
| `HeredityInference.PosteriorIsMarginal` | heredity/heredity.py:52-93 | every cell of `Posterior(ped, s)` is its hypotheses' score mass over the total mass and both distributions sum to 1: for `AsWritten` what `main` prints, for `Corrected` the posterior marginal |
| `HeredityInference.MarginalOf` | heredity/heredity.py:219-230 | normalising an entry whose totals are the mass gives mass ratios summing to 1 |
| `HeredityInference.AccumulateConcat` | heredity/heredity.py:70-90 | updating with two runs of hypotheses is updating with their concatenation |
| `HeredityInference.TraitLoopStep` | heredity/heredity.py:70-80 | one more trait set adds its gene loops, or nothing when it fails the evidence |
| `HeredityInference.GeneLoopStep` | heredity/heredity.py:82-83 | one more `one_gene` set adds its pairs |
| `HeredityInference.PairsStep` | heredity/heredity.py:83-86 | one more `two_genes` set adds one hypothesis |
| `HeredityInference.GeneLoopAdvance` | heredity/heredity.py:82-86 | after the inner loop for the next `one_gene` the table holds every hypothesis of the gene loops so far |
| `HeredityInference.TraitLoopAdvance` | heredity/heredity.py:70-86 | after the next trait set, skipped or visited, the table holds every hypothesis of the trait loop so far |
| `HeredityInference.AccumulateStep` | heredity/heredity.py:85-86 | scoring one more hypothesis is one more `update` with its score, as written or corrected |
| `HeredityInference.VisitTwoGeneSets` | heredity/heredity.py:83-86 | the inner loop, scoring with `joint_probability` as written, leaves the table updated by every pair of the chosen `one_gene` |
| `HeredityInference.VisitGeneSets` | heredity/heredity.py:82-86 | the middle loop, scoring with `joint_probability` as written, leaves the table updated by every gene hypothesis of the trait set |
| `HeredityInference.Infer` | heredity/heredity.py:52-90 | `main` from table creation to `normalize`, scoring with `joint_probability` as written, succeeds and yields `Posterior(ped, AsWritten)` |
| `HeredityInference.LoneHypotheses` | heredity/heredity.py:68-86 | an unobserved lone founder is scored under exactly six hypotheses |
| `HeredityInference.JointOfOne` | heredity/heredity.py:141-200 | under either scoring a one-person pedigree scores that person's factor |
| `HeredityInference.LoneJoint` | heredity/heredity.py:170-174 | under either scoring a lone founder's hypothesis scores gene prior times trait likelihood |
| `HeredityInference.LoneGenes` | heredity/heredity.py:68-86 | the six hypotheses of a lone founder give it 0, 2, 1, 0, 2, 1 copies, without the trait for the first three and with it for the last three |
| `HeredityInference.LoneScore` | heredity/heredity.py:170-174 | under either scoring a lone founder's hypothesis with `g` copies and trait `t` scores `PROBS["gene"][g] * PROBS["trait"][g][t]` |
| `HeredityInference.LoneJoints` | heredity/heredity.py:8-39 | under either scoring those six hypotheses score 0.9504, 0.0035, 0.0132, 0.0096, 0.0065 and 0.0168, the products of the `PROBS` entries |
| `HeredityInference.MassOfSix` | heredity/heredity.py:82-90 | under either scoring the mass of six hypotheses is the sum of their scores |
| `HeredityInference.GeneMassOfSix` | heredity/heredity.py:215 | the gene mass of six hypotheses sums the scores of those choosing that gene count |
| `HeredityInference.TraitMassOfSix` | heredity/heredity.py:216 | the trait mass of six hypotheses sums the scores of those choosing that trait value |
| `HeredityInference.LoneMasses` | heredity/heredity.py:82-90 | under either scoring a lone founder's masses: total 1, per gene count its prior, trait the prior chance of the trait |
| `HeredityInference.LoneFounderPosterior` | heredity/heredity.py:52-93 | with no evidence a lone founder's posterior gene distribution is the gene prior and its trait chance the prior chance, both for the table `main` prints and for the corrected posterior |
| `TicTacToe.AllCellsAreOnBoard` | tictactoe/tictactoe.py:45-46 | the actions considered are exactly the nine squares |
| `TicTacToe.SnapshotAt` | tictactoe/tictactoe.py:19-21 | square `(i, j)` of the board is entry `3i + j` of its contents |
| `TicTacToe.CountOf` | tictactoe/tictactoe.py:29-33 | no count exceeds the number of squares |
| `TicTacToe.CountZero` | tictactoe/tictactoe.py:29-33 | a count is 0 iff no square holds that value |
| `TicTacToe.CountUpdate` | tictactoe/tictactoe.py:62 | writing one square moves one unit of count from the old value to the new one |
| `TicTacToe.CountAll` | tictactoe/tictactoe.py:29-33 | a count over squares all holding that value is the number of squares |
| `TicTacToe.Turn` | tictactoe/tictactoe.py:24-35 | X when both have as many marks, otherwise O (no contract of its own; `Player` is proved against it) |
| `TicTacToe.EmptyCells` | tictactoe/tictactoe.py:38-50 | every action is an on-board empty square |
| `TicTacToe.Place` | tictactoe/tictactoe.py:62 | the grid with the current player's mark in square `a` (no contract of its own; see `PlaceWritesOneSquare`) |
| `TicTacToe.PlaceWritesOneSquare` | tictactoe/tictactoe.py:53-63 | a move writes the mover's mark into its square and changes nothing else |
| `TicTacToe.PlaceShrinks` | tictactoe/tictactoe.py:53-63 | a move on an open square closes exactly that square |
| `TicTacToe.OpenSquares` | tictactoe/tictactoe.py:38-50 | there is an action iff the board is not full |
| `TicTacToe.InitialState` | tictactoe/tictactoe.py:15-21 | a fresh 3×3 board with every square empty |
| `TicTacToe.InitialStateFacts` | tictactoe/tictactoe.py:15-35 | on the empty board X moves, all nine squares are open and the game is not over, as written or corrected |
| `TicTacToe.Player` | tictactoe/tictactoe.py:24-35 | the counting loops return X iff X and O have as many marks |
| `TicTacToe.Actions` | tictactoe/tictactoe.py:38-50 | the loops collect exactly the empty squares |
| `TicTacToe.PyIndex` | tictactoe/tictactoe.py:58 | a valid Python index, negative ones included, picks one of the three positions |
| `TicTacToe.Result` | tictactoe/tictactoe.py:53-63 | off-board index: an error; taken square: the exception, board unchanged; otherwise the current player's mark is written in place and nothing else changes; the outcome is a `MoveStatus` |
| `TicTacToe.Copy` | tictactoe/tictactoe.py:143 | `deepcopy`: a fresh board with the same contents |
| `TicTacToe.RowScan` | tictactoe/tictactoe.py:72-76 | the row loop finds a mark iff some remaining row is full of it |
| `TicTacToe.ColScan` | tictactoe/tictactoe.py:79-83 | the column loop finds a mark iff some remaining column is full of it |
| `TicTacToe.Winner` | tictactoe/tictactoe.py:66-100 | as written: a win iff a tested line is full; a draw iff full without one; not over otherwise |
| `TicTacToe.WinnerIntended` | tictactoe/tictactoe.py:66-100 | a win iff one of the eight lines is full, for the mark that holds it; a draw or not over otherwise |
| `TicTacToe.CodedLine` | tictactoe/tictactoe.py:71-93 | the lines `winner` tests as written: rows, columns, the main diagonal, and for X column 1 in place of the anti-diagonal (no contract of its own); see `CodedLineOmitsXAntiDiagonal` |
| `TicTacToe.CodedLineOmitsXAntiDiagonal` | tictactoe/tictactoe.py:90 | the lines tested as written are all lines except X's anti-diagonal |
| `TicTacToe.AntiDiagonalWinMissed` | tictactoe/tictactoe.py:90 | a board on which X holds the anti-diagonal is reported as not over |
| `TicTacToe.WinnersAgreeOtherwise` | tictactoe/tictactoe.py:66-100 | the two winner checks agree unless X's anti-diagonal is X's only line |
| `TicTacToe.Terminal` | tictactoe/tictactoe.py:103-112 | under rules `r` the game is over iff a line that `winner` recognises under `r`, or the whole board, is full |
| `TicTacToe.Utility` | tictactoe/tictactoe.py:115-130 | under rules `r`: 1 only for an X line, -1 only for an O line, 0 iff neither has a line recognised under `r` |
| `TicTacToe.AsWrittenEndsNoLater` | tictactoe/tictactoe.py:90-130 | a game over as written is over under the corrected rules, with the same utility when someone has won |
| `TicTacToe.AsWrittenMissesAntiDiagonal` | tictactoe/tictactoe.py:90-130 | on that board the game as written goes on with utility 0, where the corrected rules end it with utility 1 |
| `TicTacToe.ExtremeIsOptimum` | tictactoe/tictactoe.py:137-147 | the running max/min over utilities is an attained maximum (X) or minimum (O) |
| `TicTacToe.Extreme` | tictactoe/tictactoe.py:137-145 | the running `max` (X) or `min` (O) over child values, starting from the infinite sentinel (no contract of its own) |
| `TicTacToe.Better` | tictactoe/tictactoe.py:142-145 | one step of `max(v, …)` for X or `min(v, …)` for O (no contract of its own) |
| `TicTacToe.ExtremeAdd` | tictactoe/tictactoe.py:142-145 | folding one more child value is one step of `max` or `min` |
| `TicTacToe.MovesShrink` | tictactoe/tictactoe.py:140-145 | every move closes a square, so the recursion ends |
| `TicTacToe.ChildValues` | tictactoe/tictactoe.py:140-145 | under either rules, child values are utilities, and there is one iff there is a move |
| `TicTacToe.ChildValuesHas` | tictactoe/tictactoe.py:140-145 | every move's child value is among those folded |
| `TicTacToe.ChildValuesAdd` | tictactoe/tictactoe.py:140-145 | one more action adds its child's value to the set folded |
| `TicTacToe.ValueUnfold` | tictactoe/tictactoe.py:133-147 | under rules `r`, off a finished board the value is the extremum over the children's values for the other player |
| `TicTacToe.Value` | tictactoe/tictactoe.py:133-147 | under either rules a board's minimax value is a utility between -1 and 1 |
| `TicTacToe.ValueIsOptimum` | tictactoe/tictactoe.py:133-147 | under rules `r`, off a finished board some move attains the value and no move beats it for the player |
| `TicTacToe.LateAntiDiagonalMoves` | tictactoe/tictactoe.py:24-63 | on `O O X / X X O / X O _` X moves next and its only move fills the last square |
| `TicTacToe.AsWrittenValueMissesWin` | tictactoe/tictactoe.py:90-147 | there the search as written values the board 0 for either side, where the corrected rules give X's win 1 |
| `TicTacToe.ChildBoard` | tictactoe/tictactoe.py:143 | `result(deepcopy(board), action)`: a fresh board with the move made |
| `TicTacToe.MinimaxValue` | tictactoe/tictactoe.py:133-147 | `minimaxValue` returns `Value` under the rules as written |
| `TicTacToe.BestChildValue` | tictactoe/tictactoe.py:137-147 | the action loop returns the max (X) or min (O) over all children, valued with `winner` as written |
| `TicTacToe.ChildValue` | tictactoe/tictactoe.py:143-145 | a child's value is `Value` under the rules as written of the board after the move |
| `TicTacToe.ExtremeDominates` | tictactoe/tictactoe.py:161-168 | no scored move beats the extremum of their values |
| `TicTacToe.Improves` | tictactoe/tictactoe.py:163-168 | the replacement test of `minimax`: strictly larger for X, strictly smaller for O (no contract of its own) |
| `TicTacToe.Consider` | tictactoe/tictactoe.py:163-168 | the suggested move and value after scoring one more move: replaced on an improvement, kept otherwise (no contract of its own); see `SuggestsStep` |
| `TicTacToe.Suggests` | tictactoe/tictactoe.py:159-168 | what holds after scoring a set of moves: the value is their extremum and the move, present iff one was scored, attains it (no contract of its own) |
| `TicTacToe.SuggestsStep` | tictactoe/tictactoe.py:161-168 | scoring a move and applying the strict-improvement test keeps the suggested move the best so far |
| `TicTacToe.SuggestMove` | tictactoe/tictactoe.py:159-168 | with values under the rules as written, after the loop the suggested value is the optimum over all moves and the suggested move attains it |
| `TicTacToe.Minimax` | tictactoe/tictactoe.py:149-170 | `None` iff the board is full; otherwise an open square whose child, valued with `winner` as written, no other move beats for the player to move |
| `PageRank.StripSelf` | pagerank/pagerank.py:43 | each file's links without the file itself |
| `PageRank.KeepCorpusLinks` | pagerank/pagerank.py:46-50 | each link set is cut down to pages of the corpus |
| `PageRank.Crawl` | pagerank/pagerank.py:28-52 | the crawled corpus has a page per file, no page links to itself and every link stays inside the corpus |
| `PageRank.CrawlLinks` | pagerank/pagerank.py:28-52 | a page links to `l` iff its file mentions `l`, `l` is another page and `l` is in the corpus |
| `PageRank.Crawled` | pagerank/pagerank.py:28-52 | the crawled corpus is well formed |
| `PageRank.PageListed` | pagerank/pagerank.py:67-68 | a page of the corpus is in the page list, which is then non-empty, so `len(corpus)` is never 0 |
| `PageRank.LinkShare` | pagerank/pagerank.py:73 | `d / len(corpus[page])` for each link (no contract of its own); see `SharesSumToOne` |
| `PageRank.JumpShare` | pagerank/pagerank.py:75-80 | `(1 - d) / len(corpus)` with `d` set to 0 for a page without links (no contract of its own); see `SharesSumToOne` |
| `PageRank.Share` | pagerank/pagerank.py:70-80 | what `transition_model` gives a page: its link share if linked, plus the jump share (no contract of its own); see `TransitionAtPages` |
| `PageRank.Transition` | pagerank/pagerank.py:55-82 | the transition model or a `KeyError` (no contract of its own; see the `Transition…` lemmas) |
| `PageRank.TransitionFails` | pagerank/pagerank.py:55-82 | `KeyError` iff the page or one of its links is outside the corpus; otherwise one entry per page |
| `PageRank.TransitionLinked` | pagerank/pagerank.py:70-80 | from a page with links a linked page gets `d/len(links) + (1-d)/N` and any other page `(1-d)/N` |
| `PageRank.TransitionNoLinks` | pagerank/pagerank.py:75-80 | from a page without links every page gets `1/N` |
| `PageRank.SharesSumToOne` | pagerank/pagerank.py:70-80 | the link shares and the jump shares together make 1 |
| `PageRank.SharesNonNegative` | pagerank/pagerank.py:70-80 | for a damping factor in [0, 1] no share is negative |
| `PageRank.SumOfShares` | pagerank/pagerank.py:79-80 | a model giving `a + b` to the linked pages and `b` to the rest sums to `len(links) * a + N * b` |
| `PageRank.DampedSum` | pagerank/pagerank.py:70-80 | if the link shares and jump shares make 1, the model sums to 1 |
| `PageRank.TransitionAtPages` | pagerank/pagerank.py:70-80 | every page holds its jump share plus the link share if it is linked |
| `PageRank.TransitionShares` | pagerank/pagerank.py:70-80 | the transition model splits into link and jump shares that make 1, with links inside the corpus |
| `PageRank.TransitionKeys` | pagerank/pagerank.py:66-68 | every page of the corpus is a key of the model |
| `PageRank.TransitionSumsToOne` | pagerank/pagerank.py:55-82 | the model's values sum to 1 over the corpus |
| `PageRank.TransitionNonNegative` | pagerank/pagerank.py:55-82 | for a damping factor in [0, 1] no page gets a negative probability |
| `PageRank.TransitionIsDistribution` | pagerank/pagerank.py:55-82 | the transition model is a probability distribution over the corpus |
| `PageRank.ZeroModel` | pagerank/pagerank.py:66-68 | every page of the corpus starts at 0 |
| `PageRank.AddLinkShares` | pagerank/pagerank.py:72-73 | each link gets `d/len(links)`; a link outside the model is a `KeyError` |
| `PageRank.AddJump` | pagerank/pagerank.py:79-80 | every page gets the jump share on top |
| `PageRank.ModelIsTransition` | pagerank/pagerank.py:55-82 | a model holding each page's share is the transition model |
| `PageRank.TransitionModel` | pagerank/pagerank.py:55-82 | the loops of `transition_model` compute `Transition` |
| `PageRank.CrawledTransitions` | pagerank/pagerank.py:43-82 | on a crawled corpus `transition_model` never fails for one of its pages |
| `PageRank.Items` | pagerank/pagerank.py:90 | `model.items()` in corpus order |
| `PageRank.ItemsTotal` | pagerank/pagerank.py:89-91 | the running total through item `i` is the sum over the first `i + 1` pages |
| `PageRank.LastTotal` | pagerank/pagerank.py:89-91 | the running total after the last item is the sum of the whole model |
| `PageRank.DrawLands` | pagerank/pagerank.py:85-93 | over a transition model the last running total reaches every `rand` in [0, 1], so the draw never falls off its end |
| `WeightedDraw.RunningTotal` | pagerank/pagerank.py:89-91 | the running `total` once item `i` is added (no contract of its own); see `RunningTotalMonotone` |
| `WeightedDraw.FirstReaching` | pagerank/pagerank.py:89-93 | item `i` is the first whose running total reaches `rand` (no contract of its own) |
| `WeightedDraw.WeightedRandom` | pagerank/pagerank.py:85-93 | the first key whose running total reaches `rand`; `None` iff no total does |
| `WeightedDraw.RunningTotalMonotone` | pagerank/pagerank.py:89-93 | with no negative value the running totals never decrease |
| `WeightedDraw.NoEarlierReach` | pagerank/pagerank.py:89-93 | a key whose slice holds `rand` is the first whose total reaches it |
| `WeightedDraw.DrawnSlice` | pagerank/pagerank.py:85-93 | a key is drawn iff `rand` falls in its slice, which is as wide as its value |

## Left out

- Reading input is not modelled: `load_data`, the command-line handling and the printing in `main` of heredity and PageRank, the `print` in `result`, and the demonstration at the end of `tictactoe.py` that prints `minimax` of a fixed board. The pedigree, the corpus and the regular-expression matches of each file are parameters.
- Randomness is a parameter: `weighted_random_by_dct` takes the value of `random.random()` as an argument.
- `sample_pagerank` and `iterate_pagerank` are not part of this model.
- Floating-point rounding is not modelled. Probabilities are exact reals, so "sums to 1" is an exact statement here.
- Set iteration order is not modelled. The subsets come in a different order from `itertools.combinations`.
- TicTacToe.Minimax: states only that the move returned is optimal, not which of several optimal moves is picked. Which one is picked depends on the iteration order of a Python set.
- Exception types and messages are reduced to result values. `result` raising on an occupied square is `Occupied`, and an index outside the list is `OffBoard`.
- `TicTacToe.Result` covers only integer pairs as actions. Other kinds of Python index are not modelled.
- The `HeredityInference` module states the posterior for one concrete family shape only: a lone founder without evidence (`LoneFounderPosterior`). General closed forms for larger pedigrees are not stated.

## Findings

| source | as written | input that shows it | evidently intended | confidence | as-written member | corrected member |
|---|---|---|---|---|---|---|
| heredity/heredity.py:167-200 | the factors are collected in a `set`, so equal factors of different people count once | two founder parents and their child, nobody with a copy or the trait: both parents give 0.96 * 0.99, which enters the product once | the product over every person's factor, as the docstring says | not executed | `Heredity.TrioJointCollapses` | `Heredity.JointProduct` |
| tictactoe/tictactoe.py:90 | X's anti-diagonal test reads `board[i][2 - 1]`, column 1, which the column loop already covered | `O O X / _ X _ / X _ _`: X holds the anti-diagonal, `winner` raises "Game is not over" | `board[i][2 - i]`, as in O's test on line 92 | not executed | `TicTacToe.AntiDiagonalWinMissed` | `TicTacToe.WinnerIntended` |

The loops of `main` and the game search model the code as written, and the corrected half sits beside each through a parameter:

- `Heredity.Score` takes a `Scoring`. `HeredityInference.Infer` scores with `AsWritten`, that is `Joint` and `JointProbability`, and yields `Posterior(ped, AsWritten)`. `Posterior(ped, Corrected)` scores with `JointProduct`, and `PosteriorIsMarginal` proves it the posterior marginal.
- `TicTacToe.Terminal`, `Utility` and `Value` take `Rules`. `MinimaxValue`, `SuggestMove` and `Minimax` search with `AsWritten`, that is `Winner`. `Corrected` judges with `WinnerIntended`. `AsWrittenValueMissesWin` shows a board whose value the two rules disagree on.
