# ACO_TSP colony engine in Dafny

A model of the ant colony optimisation engine for the travelling salesman
problem in `methods/ACO.py`: the `ACO` object's configuration and problem
data, its serial round loop, and the body of `select_path`.

One round of `serial_iteration` has four steps, and the model follows them:

1. **Start cities.** The ants are cut into consecutive blocks of
   `city_count`. Each block takes its start cities, in order, from one
   random permutation of the cities.
2. **Tours.** Every ant builds its tour by roulette-wheel selection over
   the cities it has not yet visited. The tour is written into the ant's row
   of the `candidate` buffer, and its closed length is added to `length[i]`.
3. **Best-so-far.** Row `now_iter` of `path_best`/`distance_best` either
   carries over the previous best or takes the round's shortest tour. Ties
   go to the round's tour.
4. **Pheromone.** One of four reinforcement rules (`quantity`, `density`,
   `cycle`, `constant`) builds `incre_pheromone` along every ant's directed
   edges, closing edge included. The pheromone matrix then becomes
   `(1 - rho) P + incre`.

The engine is the class `Aco.Colony`. Its arrays and matrices are updated in
place, with loops and invariants, as in the Python code. The other modules
hold the specification functions and the lemmas about them:

- `Tours`: permutations, the `unvisit` list, path and tour lengths, and the
  flat candidate buffer.
- `Roulette`: the cumulative-sum selection.
- `Walks`: one ant's tour as a value. It covers the roulette's choice at each
  step, the walk over the unvisited cities, and the state of a walk part way
  through, which the in-place methods are proved against.
- `Starts`: start-city blocks.
- `Best`: the best-so-far series.
- `Pheromone`: the update rules and evaporation.
- `Wrappers`: `Option` and the round outcome.

How the model treats the parts of the program it cannot take literally:

- **Numbers** are `real`.
- **Desirability** `np.power(P, alpha) * np.power(R, beta)` is a function
  handed to the constructor. The model assumes only that it is
  non-negative. Where progress is stated, it also assumes the function is
  positive on positive arguments.
- **Randomness** is supplied as inputs, one round at a time:
  - `np.random.permutation` is one permutation per block of ants;
  - `np.random.rand` is one draw in `[0, 1)` per selection step.
- **Raising.** Where the program raises, the round ends with `Fail` and
  stops the run. That covers three cases:
  - `.index(True)` finds no positive entry;
  - `length.min()` is taken over no ants;
  - the rule name is unknown.

The buffer is flat: ant `a`'s row is `candidate[a*n .. a*n+n]`. That is how
numpy lays out the `(ant_count, city_count)` array row by row, and it is the
layout `select_path` indexes (`candidate[i * city_count + j]`). So one
method, `SelectPath`, serves both the serial loop and `select_path`.

## Model

| member | source | states |
|---|---|---|
| Aco.Colony.constructor | methods/ACO.py:8-24 | The configuration is stored as given. The desirability weight is non-negative. |
| Aco.Colony.InputData | methods/ACO.py:26-38 | After `input_data`: the colony is valid with no round recorded; the pheromone matrix is all ones; the reciprocal matrix is `1/d`; the best-so-far arrays are fresh, with `MAX_iter` zero rows; the cities and distances are stored. |
| Pheromone.Uniform | methods/ACO.py:35 | `np.ones((n, n))`: an n-by-n matrix whose every entry is the given value. |
| Tours.Reciprocal | methods/ACO.py:38 | `1.0 / distance_table`: every entry times its distance is 1, and every entry is positive. |
| Aco.Colony.ZeroRows | methods/ACO.py:36-37 | Fresh arrays of `MAX_iter` rows. Every path row is all zeros and every best length is 0. |
| Walks.Weights | methods/ACO.py:81-84 | `probability_trans` as a value: one weight per unvisited city, in the order of `unvisit`. |
| Aco.Colony.Desirabilities | methods/ACO.py:81-84 | `probability_trans[k]` is the desirability of moving from `visit` to `unvisit[k]`, in the order of `unvisit`. The array built by the loop is `Walks.Weights` of the colony's state. |
| Roulette.Select | methods/ACO.py:85-88 | The chosen index is the first whose normalised cumulative weight minus the draw is positive. No earlier index qualifies. There is no choice when the weights sum to zero. |
| Roulette.FirstExceeding | methods/ACO.py:88 | `.index(True)` over a suffix: the first qualifying index, or None exactly when no index qualifies. |
| Roulette.SelectSomeIff | methods/ACO.py:85-88 | For non-negative weights and a draw in [0,1), a city is chosen if and only if the weights sum to a positive value. |
| Roulette.SelectDefined | methods/ACO.py:85-88 | Positive total weight and a draw below 1 always yield a choice, because the last cumulative entry is 1. |
| Roulette.SelectedHasPositiveWeight | methods/ACO.py:85-88 | The chosen city's own weight is positive. |
| Roulette.ZeroSumIffAllZero | methods/ACO.py:86 | Non-negative weights sum to zero exactly when every weight is zero. |
| Roulette.SumNonNegative | methods/ACO.py:86 | Non-negative weights have a non-negative sum. |
| Roulette.SumPositive | methods/ACO.py:86 | Positive weights have a positive sum. |
| Walks.Choice | methods/ACO.py:85-88 | `unvisit[...index(True)]`: the city at the index the roulette `Select` picks over the weights, which is one of `unvisit`. None where `.index(True)` raises. |
| Walks.Walk | methods/ACO.py:79-93 | The loop over `j` as a value. A completed walk appends exactly one city per unvisited city. It is None as soon as a step has no choice. |
| Walks.WalkVisitsUnvisited | methods/ACO.py:79-93 | Every city a completed walk appends comes from `unvisit`. From a duplicate-free `unvisit`, no city repeats. |
| Walks.Tour | methods/ACO.py:76-94 | An ant's tour is its start city followed by its walk over every other city. A completed tour has `city_count` cities and begins at the start city. |
| Walks.TourIsPermutation | methods/ACO.py:76-94 | A completed tour holds every city exactly once. |
| Aco.Colony.ChooseNext | methods/ACO.py:81-88 | The next city is exactly the roulette's `Choice` for the colony's weights and the draw. It comes from `unvisit` and has positive desirability. There is no choice exactly when every desirability from `visit` is zero. Positive pheromone and desirability always give a choice. |
| Tours.Remove | methods/ACO.py:78 | `list.remove`: one entry fewer. Every other element is kept, nothing new appears, and cities stay in range. |
| Tours.RemoveDistinct | methods/ACO.py:91 | Removing a city from a duplicate-free `unvisit` leaves it duplicate-free and without that city. |
| Tours.RangeIsPermutation | methods/ACO.py:76 | `list(range(city_count))` holds every city exactly once. |
| Tours.RestOfRange | methods/ACO.py:76-78 | The start city is in `range(city_count)`, and what is left after removing it stays in range. |
| Tours.UnvisitedStart | methods/ACO.py:76-78 | All cities minus the start, together with the one-city prefix `[start]`, split the cities. |
| Tours.UnvisitedStep | methods/ACO.py:88-91 | Moving a chosen city from `unvisit` to the tour keeps the split: every city is in exactly one of the two, with no repeats. |
| Tours.UnvisitedDone | methods/ACO.py:79-93 | Once `unvisit` is empty the tour is a permutation of the cities. |
| Tours.PathSumAppend | methods/ACO.py:92 | Appending city `k` adds exactly `distance_table[visit][k]` to the open path length. |
| Tours.TourLengthClosesPath | methods/ACO.py:92-94 | `TourLength`, the closed length of a tour, is the open length of the path that goes on back to the first city: line 92's steps plus line 94's closing edge. |
| Tours.PathSumNonNegative | methods/ACO.py:92 | Open path lengths over positive distances are non-negative. |
| Tours.TourLengthPositive | methods/ACO.py:92-94 | A closed tour over positive distances has a positive length. |
| Walks.WalkBegins | methods/ACO.py:76-78 | Before any step, the tour is `[start]` followed by the walk from `start` over every other city. |
| Walks.WalkUnfolds | methods/ACO.py:88-93 | A step whose roulette picks `k` puts `k` in front of the walk from `k` over the rest. |
| Walks.WalkAdvances | methods/ACO.py:88-93 | A step whose roulette picks `k` moves `k` from the rest of the walk onto the path; the tour is unchanged. |
| Walks.WalkStops | methods/ACO.py:88 | A step with no choice means the ant has no tour. |
| Walks.WalkEnds | methods/ACO.py:79-93 | With nothing left unvisited, the path walked is the tour. |
| Walks.ProgressBegins | methods/ACO.py:76-78 | The walk starts at `start`, with every other city unvisited and length 0. |
| Walks.ProgressAdvances | methods/ACO.py:88-93 | Choosing `k` moves it from `unvisit` onto the path and adds `distance_table[visit][k]` to the length. The state stays a prefix of the tour. |
| Walks.ProgressStops | methods/ACO.py:88 | A step with no choice leaves the ant without a tour. |
| Walks.ProgressEnds | methods/ACO.py:93-94 | With every city visited, the path is the ant's tour and a permutation. Adding the closing edge back to the start gives its closed length. |
| Walks.RowStep | methods/ACO.py:88-92 | One roulette draw: with no choice the ant has no tour; with choice `k` written into `candidate[i, j]`, the row's prefix and the walk both extend by `k` and nothing else in the buffer changes. |
| Aco.Colony.Advance | methods/ACO.py:81-91 | One step of the walk writes only `candidate[i, j]`, and writes the roulette's `Choice`. The city was unvisited. The row prefix, the unvisited list and the open length stay those of the ant's tour. With no choice the ant has no tour and nothing is written. |
| Aco.Colony.WalkSteps | methods/ACO.py:79-93 | The loop over `j` either ends with the whole tour written into the row and its open length, or stops exactly when the ant has no tour. Only the row's non-start slots change. |
| Aco.Colony.WalkRow | methods/ACO.py:76-94 | The walk completes exactly when the ant has a tour (`Walks.Tour`) for its start city and draws, and then the row is that tour. The tour is a permutation of the cities, and `len` is its closed length, closing edge included. Only the row's non-start slots change. Positive pheromone and desirability always complete it. |
| Aco.Colony.SelectPath | methods/ACO.py:140-163 | `select_path(i)` changes only ant `i`'s non-start slots and `length[i]`. It completes exactly when the ant has a tour, and then the row is that tour, a permutation, and `length[i]` grew by exactly its closed length. |
| Tours.RowsOutsideUnchanged | methods/ACO.py:159 | Writing inside one ant's row leaves every other row and every start slot as it was. |
| Tours.RowsApart | methods/ACO.py:146 | Rows `a*n .. a*n+n` of distinct ants do not overlap. |
| Tours.SlotIsProduct | methods/ACO.py:146 | The row offset of ant `a` is `a * city_count`. |
| Starts.NumBlocks | methods/ACO.py:64-70 | The number of permutations a round draws covers all ants, and no block is empty. |
| Starts.StartCity | methods/ACO.py:61-70 | Ant `a` starts from entry `a % n` of permutation `a / n`, which is a city. |
| Starts.StartsDistinctInBlock | methods/ACO.py:63-70 | Within any block, the final partial block included, no two ants share a start city. |
| Starts.FewAntsDistinctStarts | methods/ACO.py:61-62 | With no more ants than cities, all start cities differ. |
| Starts.FullBlockCoversAll | methods/ACO.py:66-69 | A full block of `city_count` ants uses every city as a start. |
| Tours.PermutationCoversAll | methods/ACO.py:67 | A permutation of `range(city_count)` contains every city. |
| Tours.DistinctCard | methods/ACO.py:67 | A duplicate-free list has as many distinct values as entries. |
| Aco.Colony.SetStarts | methods/ACO.py:66-70 | The ants of block `b` get their starts from the block's permutation, in order. Every other ant's start is unchanged, and no non-start slot of any row changes. |
| Aco.Colony.AssignStarts | methods/ACO.py:61-70 | Every ant's start slot holds its start city, both with `ant_count <= city_count` and in the block loop. Only column 0 is written: no non-start slot changes. |
| Tours.StartWriteKeepsTails | methods/ACO.py:62-70 | Writing one start slot (`candidate[a, 0]`) keeps every row's non-start slots. |
| Aco.Colony.WalkAnt | methods/ACO.py:74-94 | One pass of the loop over ants. Ant `i` completes exactly when its roulette walk from its start city has a `Walks.Tour` under its draws. Its row is then that tour with its closed length, extending by one ant the prefix of complete tours and the prefix of ants whose row is their tour. No start city and no other ant's length changes. |
| Aco.Colony.ToursUpToStep | methods/ACO.py:74-94 | Completing ant `i`'s tour with its closed length, without touching the rows and lengths of the ants before it, extends the complete prefix by one ant. |
| Aco.Colony.WalkedUpToStep | methods/ACO.py:74-94 | Ant `i` writing its `Walks.Tour` into its row, without touching the rows before it, extends by one ant the prefix whose rows are their roulette tours. |
| Aco.Colony.WalkAll | methods/ACO.py:74-94 | All ants complete exactly when every ant's roulette walk from its start city has a tour. Every row is then that ant's `Walks.Tour`, a permutation, and every length its closed length. Start cities stay in place. Positivity guarantees completion. |
| Aco.Colony.ConstructTours | methods/ACO.py:60-94 | With `length` zeroed every round, every start slot holds the ant's `StartCity`. The round completes exactly when every ant's `Walks.Tour` from its assigned start, under the round's draws, exists. Every row is then that tour, a permutation, and every length equals its closed tour length. |
| Best.FirstMinIndex | methods/ACO.py:98-99 | `length.argmin()`: its entry is the minimum, and every earlier entry is strictly larger. |
| Best.BestOfRound | methods/ACO.py:97-106 | Row `k` as lines 97-106 write it: with `i` the first shortest ant, it carries row `k-1` over when `length[i]` is strictly longer, and otherwise takes ant `i`'s tour and length, ties and round 0 included. A row so recorded is no longer than any ant of its round and no longer than the row before it. |
| Best.SeriesExtend | methods/ACO.py:97-106 | Appending a tour no longer than the previous best and no longer than any length of its round keeps the series valid. |
| Best.BestsDescend | methods/ACO.py:101-105 | `distance_best` never increases across rounds. |
| Aco.Colony.UpdateBest | methods/ACO.py:97-106 | Round 0 records the round's shortest tour. A later round carries over the previous row when its shortest is strictly longer, and otherwise takes the first shortest tour, ties included. Other rows are untouched, the round's lengths join the history, and the series stays valid. |
| Best.BestOfRoundKept | methods/ACO.py:97-106 | Rewriting only rows after round `k` leaves round `k`'s record of its best as it was. |
| Aco.Colony.RecordedStep | methods/ACO.py:96-106 | A round that records its best in the next row, leaving earlier rows in place, extends the record of the run by its tours and lengths. |
| Aco.Colony.RecordedAfter | methods/ACO.py:96-106 | After a round, the record of the run either extends by that round, when it recorded its best, or stays as it was, when nothing changed. |
| Aco.Colony.RecordBest | methods/ACO.py:98-106 | Writes row `now_iter` only. The recorded series stays a non-increasing run of real tours, each no longer than every tour of its own and earlier rounds. |
| Pheromone.ParseRule | methods/ACO.py:110-135 | Each of the four names selects its rule. Any other name selects none (the `ValueError` branch). |
| Pheromone.Amount | methods/ACO.py:113-133 | The four per-edge increments. With Q > 0 each is positive. |
| Pheromone.AntDepositEdge | methods/ACO.py:112-116 | One edge of an ant adds its amount to the entry it traverses and nothing elsewhere. |
| Pheromone.AntDepositNonNegative | methods/ACO.py:111-116 | One ant's deposit on any entry is non-negative. |
| Pheromone.DepositNonNegative | methods/ACO.py:109-116 | The first `a` ants' deposit on any entry is non-negative. |
| Pheromone.IncrementNonNegative | methods/ACO.py:108-133 | Every entry of `incre_pheromone` is non-negative. |
| Pheromone.AntDepositZeroOffTour | methods/ACO.py:111-116 | An ant deposits nothing on an edge it does not traverse. |
| Pheromone.DepositZeroOffTour | methods/ACO.py:109-116 | An edge no ant traverses receives nothing. |
| Pheromone.AntDepositPositiveOnTour | methods/ACO.py:111-116 | An ant's deposit on an edge it traverses is positive. |
| Pheromone.DepositPositiveOnTour | methods/ACO.py:109-116 | An edge traversed by some ant receives a positive amount. |
| Pheromone.IncrementPositiveIffTraversed | methods/ACO.py:108-133 | An entry of `incre_pheromone` is positive exactly when some ant walked that directed edge, closing edges included. It is zero exactly when none did. |
| Pheromone.Increment | methods/ACO.py:109-133 | `incre_pheromone` is an n-by-n matrix whose entry [u][v] is `Deposit` over all ants: each ant adds `Amount` for every directed edge of its closed tour. `IncrementPositiveIffTraversed` and `IncrementNonNegative` state its entries and `ComputeIncrement` equates the loops with it. |
| Pheromone.Evaporate | methods/ACO.py:136 | `(1 - rho) P + incre` elementwise, an n-by-n matrix. `EvaporatePositive` states that it stays positive. |
| Pheromone.EvaporatePositive | methods/ACO.py:136 | With `0 <= rho < 1`, a positive matrix plus a non-negative increment stays positive. |
| Aco.Colony.AddTour | methods/ACO.py:111-116 | Ant `i` adds its deposit to every entry of the increment: its `n-1` path edges and its closing edge. |
| Aco.Colony.AddEdge | methods/ACO.py:112-116 | One edge adds exactly the next step of the ant's deposit. |
| Aco.Colony.AddAmount | methods/ACO.py:113 | `+=` on one cell leaves every other cell unchanged. |
| Aco.Colony.ComputeIncrement | methods/ACO.py:109-133 | The increment matrix built by the loops equals the specification `Increment` for the chosen rule. |
| Aco.Colony.TouredRound | methods/ACO.py:108-133 | Complete tours give in-range cities and positive lengths, so every rule is defined. |
| Aco.Colony.UpdatePheromone | methods/ACO.py:136 | The pheromone becomes `(1 - rho) P + incre`. With `0 <= rho < 1` and Q > 0 it stays positive. |
| Aco.Colony.ApplyRule | methods/ACO.py:108-136 | A known rule name sets the pheromone to evaporation plus that rule's increment. An unknown name fails with the pheromone unchanged. |
| Aco.Colony.FinishRound | methods/ACO.py:96-136 | The best is recorded before the pheromone update. Row `now_iter` carries over the previous best when the round's shortest is strictly longer, and otherwise takes the first shortest tour. Every other row stays as it was, and the round's lengths join the history. The round passes exactly when the rule name is known. An unknown name leaves the pheromone unchanged. |
| Aco.Colony.Round | methods/ACO.py:59-136 | Every start slot holds its `StartCity`. The round fails for want of a selectable city exactly when some ant has no `Walks.Tour` under the pheromone the round started from. When the tours complete with at least one ant, every row is the ant's tour, the round's lengths join the history, and row `now_iter` records the round's best as lines 97-106 do. No other row changes. A passing round sets the pheromone to evaporation plus the rule's increment over those tours. A failing round leaves the pheromone unchanged. An unknown name fails after the best is recorded. With positive weights, at least one ant and a known rule, the round passes. |
| Aco.Colony.RunRound | methods/ACO.py:59-136 | Round `k` of the run. When it records its best, the record of the run extends by the pheromone it started from and its tours, which are the ants' roulette tours under round `k`'s random input, and the pheromone becomes its update. It fails for want of a selectable city exactly when some ant is stuck under that pheromone, and then records nothing. Every recorded round keeps its row. |
| Aco.Colony.RoundBookkept | methods/ACO.py:59-136 | What a round leaves behind, as values: when it recorded a row, the run's record extends by the round and the pheromone thread by its update; otherwise both stay as they were. |
| Aco.Colony.ChainedAfter | methods/ACO.py:136 | A recorded round that starts from the current pheromone and leaves `(1 - rho) P + incre`, or `P` for an unknown rule, extends the pheromone thread. A round that records nothing keeps it. |
| Aco.Colony.BeginRun | methods/ACO.py:57-59 | A run starts with no round recorded, from the pheromone it is given. |
| Aco.Colony.SerialIteration | methods/ACO.py:40-138 | The run returns a record of its rounds. Round 0 starts from the initial pheromone, and every later round from `(1 - rho) P + incre` of the round before it. The final pheromone is the last round's update. For every round `k`, each ant's row is its `Walks.Tour` from its start under `perms[k]` and `draws[k]`, those tours are complete, `history[k]` is their lengths, and row `k` of `path_best`/`distance_best` is its best as lines 97-106 choose it. A full run records `MAX_iter` rounds. A run that stops for want of a selectable city has an ant stuck in the next round. An unknown name fails in round 0 with the pheromone unchanged. Positivity and a known rule make the run complete. Positive pheromone stays positive. |
| Starts.LengthsAsWritten | methods/ACO.py:61-71 | As written, the round's `length` array is bound only when there are more ants than cities. |
| Starts.OneAntTwoCitiesLeavesLengthUnbound | methods/ACO.py:71 | With one ant and two cities, `length` is unbound when line 92 reads it. |

## Left out

- `parallel_iteration`, `init_pool_processes`, the process pool and the shared `Array`/`ctypes` buffers (methods/ACO.py:165-216) are concurrency plumbing. Their per-ant work is `select_path`, modelled sequentially by `Aco.Colony.SelectPath` on the same flat buffer. `select_path`'s module-level `candidate` and `length` are parameters here.
- `use_CPUs` is stored by `__init__` but is used only by the pool. It is not a field of the model.
- `tqdm` progress and `print` are output only.
- `np.random.permutation` and `np.random.rand` are not modelled as a generator. Their values are inputs: one permutation per block of ants and one draw in `[0, 1)` per step.
- `np.power` with real exponents is not modelled. The desirability is an abstract non-negative function.
- Floating-point rounding is not modelled. Distances, lengths and pheromone are `real`.
- Aco.Colony.ChooseNext: with exact reals the last cumulative entry is exactly 1, so a draw below 1 always selects a city when the weights sum to a positive value. In IEEE arithmetic the last entry can round below the draw; that failure is not captured.
- Aco.Colony.InputData: it requires every distance, diagonal included, to be positive, so that `1.0 / distance_table` is defined. The data loader's `9999999` diagonal sentinel meets this; the loader itself (`datas/load_data.py`) is not part of this model.
- Aco.Colony.InputData: it requires at least two cities. The update loops read `j+1` after `for j in range(city_count - 1)`, which leaves `j` unbound when there is one city.
- Aco.Colony.AddTour: the closing edge is handled as the last step of the edge loop (`j = n-1`) rather than as a statement after it. The increments added are the same.
- Aco.Colony.SerialIteration: the best-so-far arrays are returned through the object's fields rather than as a tuple.
- Aco.Colony.SerialIteration: each round's starting pheromone, tours and lengths are kept as ghost state (`runs` and `history`), which the source does not keep. It is there to state the tours, best-so-far and pheromone guarantees round by round.
- The default arguments are not modelled. These are `__init__`'s `ant_count=100, alpha=1, beta=2, rho=0.1, Q=1, MAX_iter=200`, and `serial_iteration`'s `method="cycle"`. The constructor and `SerialIteration` take every value explicitly.
- `datas/load_data.py`, `experiment.py` and `utils/plot.py` (file I/O, data generation, orchestration, plotting) are not part of this model.

## Findings

| source | as written | input that shows it | evidently intended | confidence | as-written member | corrected member |
|---|---|---|---|---|---|---|
| methods/ACO.py:61-71, 92 | `length = np.zeros(self.ant_count)` sits inside the `else` branch of the start assignment, so it runs only when `ant_count > city_count`. Otherwise `length[i] += ...` on line 92 reads a local that was never bound. | `ant_count = 1` with two cities (and the default `ant_count = 100` on any instance of 100 or more cities) | `length` is zeroed at the start of every round, whatever the ant count | high; not executed | Starts.LengthsAsWritten, Starts.OneAntTwoCitiesLeavesLengthUnbound | Aco.Colony.ConstructTours |
