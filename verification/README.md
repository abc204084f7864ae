# Three exhaustive-search exercises, modelled in Dafny

The repository holds three small Python programs:

- `first_assignment/first.py` builds an optimal purchase plan. It enumerates every subset of the suppliers together with its summed weight. It then keeps the first pairwise-compatible subset of the largest positive weight.
- `second_assignment/second.py` solves bin packing in two ways.
  - An exact solver scans every packing a recursive generator yields and keeps the first one with the fewest bins.
  - A greedy First Fit packer puts each item into the first bin with room for it.
- `third_assignment/third.py` finds the most frequent approximate motif of length k in a genome. It generates every pattern over the alphabet and counts the genome windows within a Hamming distance of each. It keeps the first pattern with the highest count.

The Dafny project models these operations as pure functions and short methods and proves properties of them. The modules are:

| module | file | models |
|---|---|---|
| `Powers` | `powers.dfy` | `Mul`, `Pow`, `Quot` and `Rem` on naturals, written recursively so that the counting proofs stay linear |
| `Bins` | `bins.dfy` | blocks, packings, the capacity test and what a partition of the items is |
| `Enumerator` | `enumerator.dfy` | the recursive packing generator, in its yield order |
| `ExactSolver` | `exact_solver.dfy` | the brute-force packer and its first reference instance |
| `FirstFit` | `first_fit.dfy` | First Fit, both as a function and as the array-based loop of the source |
| `Comparison` | `comparison.dfy` | the exact and greedy solvers run on the same items |
| `Motif` | `motif.dfy` | the Hamming test, the pattern generator, window counting, the dictionary and the search |
| `Purchase` | `purchase.dfy` | the subset enumeration, the compatibility check and the plan selection |

Some Python values are represented differently in the model:

- Python generators become the full sequence of what they yield, in yield order.
- A Python `dict` becomes its entries in insertion order.
- `max(d, key=d.get)` is the first entry of the largest value.
- Errors the motif code raises become `None` of an `Option`. Inputs on which the other programs raise are excluded by a `requires`, listed under "## Left out".
- Weights and capacities are exact reals.

## Model

| member | source | states |
|---|---|---|
| Bins.CheckValidity | second_assignment/second.py:5-15 | the box passes exactly when the sum of its items' weights is at most the capacity; an empty box passes exactly when the capacity is not negative |
| Enumerator.Insertions | second_assignment/second.py:34-36 | putting item k in front of each block in turn yields at most one packing per block tried, and every block stays within the items |
| Enumerator.Extend | second_assignment/second.py:34-39 | one packing of the later items yields at most one more packing than it has blocks. When it has fewer than n-1 blocks, the last packing yielded is `[[k]]` followed by it |
| Enumerator.ExtendAll | second_assignment/second.py:33-39 | every packing the loop over the later items' packings yields keeps its blocks within the items; `ExtendAllMembers` says which packings those are |
| Enumerator.SubGenerator | second_assignment/second.py:25-40 | every packing yielded keeps its blocks within the items; `SubGeneratorSound`, `SubGeneratorDistinct` and `SubGeneratorComplete` state what the packings are |
| Enumerator.SingletonsYielded | second_assignment/second.py:25-40 | from the second item on, the packing with one block per remaining item is among those yielded, so the generator yields at least one packing there |
| Enumerator.GenerateAllValidChoices | second_assignment/second.py:17-42 | a single item has the one packing `[[0]]`; `ChoicesArePartitions`, `ChoicesDistinct` and `ChoicesComplete` state what the search yields in general |
| Enumerator.ExtendMembers | second_assignment/second.py:33-39 | a packing of the later items yields exactly two kinds of packing. The first kind puts item k in front of one block where the enlarged block passes the capacity test, leaving every other block unchanged. The second kind is `[[k]]` followed by the packing, and it is yielded only when that has fewer blocks than there are items |
| Enumerator.ExtendAllMembers | second_assignment/second.py:33-39 | what the loop over all packings of the later items yields is exactly what some one of them yields |
| Enumerator.SubGeneratorSound | second_assignment/second.py:25-40 | every packing yielded for items k .. n-1 has the following properties: its blocks are non-empty and increasing, and each of those items is in exactly one block; every block of two or more items passes the capacity test; it has at most n-k blocks, and fewer than n unless k is the last item |
| Enumerator.ExtendInverse | second_assignment/second.py:34-39 | taking item k back out of any packing extended from p gives p again |
| Enumerator.SubGeneratorDistinct | second_assignment/second.py:25-40 | the generator never yields the same packing twice |
| Enumerator.SubGeneratorComplete | second_assignment/second.py:25-40 | with no negative weight, every partition of k .. n-1 whose multi-item blocks pass the test, with fewer than n blocks, is yielded with its blocks in some order |
| Enumerator.ChoicesArePartitions | second_assignment/second.py:17-42 | every yielded packing partitions all items and its multi-item blocks pass the capacity test. With two or more items it has fewer blocks than items; a single item yields only `[[0]]` |
| Enumerator.ChoicesDistinct | second_assignment/second.py:17-42 | the whole search never yields the same packing twice |
| Enumerator.ChoicesComplete | second_assignment/second.py:17-42 | with no negative weight, every valid partition of all items into fewer blocks than items is yielded, up to block order |
| Enumerator.NegativeWeightEscapesSearch | second_assignment/second.py:33-36 | the weights [-1, 1, 1] with capacity 1 show why completeness needs non-negative weights: the single block [0, 1, 2] fits but is never yielded, because its tail [1, 2] does not fit |
| ExactSolver.BruteForcePacking | second_assignment/second.py:44-62 | the bin count is the packing's length and at most the item count. No yielded packing is shorter. The result is either the one-bin-per-item baseline, when nothing yielded is shorter, or the first yielded packing of the least length. On all items it is a valid partition. With no negative weight, no valid partition at all has fewer bins |
| ExactSolver.ShortestIsOptimal | second_assignment/second.py:55-62 | a packing that is the baseline or comes from the search, and that nothing from the search beats, is a valid partition; with no negative weight, no valid partition beats it |
| ExactSolver.ChoicesOnFirstInstance | second_assignment/second.py:101 | on weights [1.0, 1.4, 0.6, 1.0] with capacity 2 the search yields exactly five packings, listed in order |
| ExactSolver.FirstReferenceInstance | second_assignment/second.py:111 | the brute-force packer returns `([[1, 2], [0, 3]], 2)` on the first reference instance |
| FirstFit.Place | second_assignment/second.py:84-94 | placing an item keeps one room per bin and either keeps the bin count or adds one bin, and a bin it adds holds only that item |
| FirstFit.PackFirst | second_assignment/second.py:77-94 | after the first t items there is one room per bin, at most t bins, and at least one bin once an item is placed |
| FirstFit.PlaceIsFirstFit | second_assignment/second.py:84-94 | the item either joins the lowest-numbered bin whose room is at least its weight, taking that weight off the room, or, when every bin's room is below its weight, opens a new bin at the end with the capacity minus its weight as room |
| FirstFit.PackFirstConsistent | second_assignment/second.py:77-94 | after the first t items, the bins partition 0 .. t-1, each room is the capacity minus the bin's weight, and every bin holding two or more items is within capacity |
| FirstFit.PackFirstRule | second_assignment/second.py:83-94 | in the packing built, no earlier bin had room for an item when it was placed; every item that did not open its bin fitted the room its bin had left; bins are in opening order |
| FirstFit.TwoBinsOverflow | second_assignment/second.py:84-94 | with no negative weight, any two bins together weigh more than the capacity |
| FirstFit.FirstFitBinBound | second_assignment/second.py:66-96 | with no negative weight, First Fit's b bins satisfy (b-1)·C < 2W, W being the packed weight and C the capacity |
| FirstFit.RemoveFirstSplit | second_assignment/second.py:95 | `list.remove` drops exactly the first occurrence of the value |
| FirstFit.PlaceItem | second_assignment/second.py:84-94 | one pass of the outer loop leaves, in the bins in use, exactly the packing First Fit's placement rule gives, with the unused bins still empty |
| FirstFit.PackItems | second_assignment/second.py:77-94 | the packing loop leaves the First Fit packing in the first `boxes` bins and the rest empty |
| FirstFit.RemoveEmptyBins | second_assignment/second.py:95 | removing empty bins one by one leaves exactly the bins in use, and no empty bin |
| FirstFit.FirstFit | second_assignment/second.py:66-96 | the result is the First Fit packing of the items and the bin count is its length, at most the item count. It partitions the items, its multi-item bins are within capacity, and it obeys the placement rule |
| FirstFit.PackFirstOnFirstInstance | second_assignment/second.py:119 | on the first reference instance First Fit builds the bins {0, 2}, {1}, {3} |
| FirstFit.PackFirstOnSecondInstance | second_assignment/second.py:120 | on the second reference instance First Fit builds the bins {0, 1, 4}, {2, 5}, {3} |
| FirstFit.FirstFitFirstInstance | second_assignment/second.py:119 | the First Fit method returns `([{0, 2}, {1}, {3}], 3)` on the first reference instance |
| Comparison.Compare | second_assignment/second.py:168-171 | a wrapper feeding `CompareSolvers`: a bin count no larger than that of any valid packing is no larger than First Fit's, and First Fit's packing meets the (b-1)·C < 2W bound of `FirstFitBinBound` |
| Comparison.CompareSolvers | second_assignment/second.py:166-180 | on the same items with no negative weight, both solvers return valid partitions, and the exact bin count is at most First Fit's, which is at most the item count |
| Motif.Mismatches | third_assignment/third.py:29-42 | the distance over the zipped pairs is at most the length of either string |
| Motif.MismatchesIsHamming | third_assignment/third.py:29-42 | the distance is the number of shared positions where the letters differ, and it is zero exactly when the two strings agree on every shared position |
| Motif.MismatchesCountPositions | third_assignment/third.py:36-39 | the running mismatch count equals the number of positions where the strings differ |
| Motif.MismatchesSymmetric | third_assignment/third.py:36-39 | the distance does not depend on which string comes first |
| Motif.CheckHammingDistance | third_assignment/third.py:29-42 | the test accepts exactly when the zipped strings differ in at most `allowed` positions, or in none. For a non-negative allowance that is a distance of at most `allowed`, and an accepted pair is accepted under any larger allowance |
| Motif.Patterns | third_assignment/third.py:45-78 | the generator yields \|alphabet\|^k patterns |
| Motif.PatternsShape | third_assignment/third.py:65-76 | every pattern yielded has length k and is written over the alphabet |
| Motif.PatternAtRank | third_assignment/third.py:45-78 | every string of length k over the alphabet is yielded, at the index given by its letters read as base-\|alphabet\| digits |
| Motif.RankOfPattern | third_assignment/third.py:69-76 | over an alphabet without repeated letters, the i-th pattern yielded has rank i |
| Motif.PatternsOrdered | third_assignment/third.py:69-76 | over an alphabet without repeated letters, the patterns come in dictionary order of the alphabet |
| Motif.PatternsDistinct | third_assignment/third.py:45-78 | over an alphabet without repeated letters, no pattern is yielded twice |
| Motif.SmallPatterns | third_assignment/third.py:65-76 | length 0 yields only the empty pattern, and length 2 over "AT" yields AA, AT, TA, TT |
| Motif.CountApproximateOccurrences | third_assignment/third.py:80-100 | the count is the number of window starts whose window passes the Hamming test; it is at most the number of windows, and it is 0 when the genome is shorter than the pattern |
| Motif.WindowHitsItself | third_assignment/third.py:89-98 | every window of the genome counts as an occurrence of itself |
| Motif.Assign | third_assignment/third.py:120 | after the assignment the key holds the new value, the dictionary grows by at most one entry, every entry of another key is kept, and no entry other than the assigned one is new |
| Motif.AssignAppends | third_assignment/third.py:120 | assigning a key the dictionary lacks appends it at the end |
| Motif.AssignOverwrites | third_assignment/third.py:120 | assigning a key the dictionary holds replaces its value in place |
| Motif.ArgMax | third_assignment/third.py:125 | the chosen entry has the largest value, and every earlier entry has a strictly smaller one |
| Motif.MaxKey | third_assignment/third.py:125 | there is no key exactly when the dictionary is empty |
| Motif.MaxKeyOfIncreasing | third_assignment/third.py:116-125 | when the values strictly increase in insertion order, the maximum is the last key entered |
| Motif.FindRecurrentPattern | third_assignment/third.py:102-130 | no pattern is returned exactly when every pattern has zero occurrences; otherwise the result is the first pattern of the generator order with the most approximate occurrences |
| Motif.SomePatternOccurs | third_assignment/third.py:116-125 | for a genome over the alphabet at least k long, some generated pattern has an occurrence |
| Motif.ValidateInstance | third_assignment/third.py:23-27 | an instance is accepted exactly when both numbers are positive and every genome character is in the alphabet, and it is returned unchanged |
| Motif.ValidInstanceFindsPattern | third_assignment/third.py:23-27 | on a validated instance whose genome is at least the pattern length, not every pattern scores zero, so the search does not fail |
| Purchase.Grow | first_assignment/first.py:12-19 | the loop over the suppliers builds one record fewer than 2^n for n suppliers, each choosing at least one supplier |
| Purchase.Combinations | first_assignment/first.py:3-21 | n suppliers give 2^n records; the last is the empty choice of weight 0, and it is the only empty choice |
| Purchase.CombinationsWeights | first_assignment/first.py:16-19 | each record's weight is the sum of its suppliers' weights, and it lists suppliers of the input only |
| Purchase.RecordsAreSelections | first_assignment/first.py:12-21 | every record lists a sub-selection of the suppliers, in supplier order |
| Purchase.SelectionsAreRecords | first_assignment/first.py:12-21 | every sub-selection of the suppliers is listed by some record |
| Purchase.CombinationsDistinct | first_assignment/first.py:12-21 | with no supplier listed twice, no two records list the same suppliers |
| Purchase.TwoSupplierCombinations | first_assignment/first.py:12-21 | suppliers [1, 2] give the records [1], [1, 2], [2], [] with their weights, in that order |
| Purchase.CheckCompatible | first_assignment/first.py:22-33 | the check passes exactly when no supplier of the choice lists any supplier of the choice, itself included, as incompatible |
| Purchase.CompatibleSubChoice | first_assignment/first.py:22-33 | compatibility depends only on which suppliers are chosen: any choice drawn from a compatible one is compatible |
| Purchase.OptimalPurchasePlan | first_assignment/first.py:34-55 | the plan draws on the suppliers, is compatible, and weighs at least 0 and at least every compatible record. It is empty exactly when no compatible record has positive weight. Otherwise it is the first compatible record of the largest weight |

## Left out

- Reading the instance files and the `__main__` blocks are not modelled, because they are I/O. Only the checks `read_instance` makes on the values it read are modelled.
- The random benchmarks, `timeit` timings and `scipy` curve fits are not modelled: they need randomness, clocks and floating-point libraries. This covers second.py lines 130-242 and first.py lines 57-104. What `approximation_ratio_routine` compares is modelled by `Comparison.CompareSolvers`.
- `automated_testing_routine` and `check_automated_testing_routine` are not modelled; their messages are plain output. Their expected results are proved as instance lemmas. The brute-force packer's expected result on the six-item instance is not proved: its search space is too large to unfold.
- The three example genomes at the end of third.py are not modelled.
- Floating-point rounding is not modelled: weights, capacities and sums are exact reals.
- Generator laziness and the shared `nonlocal` state of the recursive generators are not modelled. Each generator is the sequence of what it yields, in yield order, which is all its callers observe.
- First Fit's bins are Python sets; the model uses sequences of item indices. Items are added in increasing order, so each sequence lists its set in order.
- Enumerator.SubGeneratorComplete: completeness is proved only for non-negative weights, since it fails otherwise (see `NegativeWeightEscapesSearch`).
- ExactSolver.BruteForcePacking: requires at least one weight. On an empty weight list the source's generator fails with an index error.
- FirstFit.FirstFit: requires no more items than weights, where the source would fail with an index error.
- Purchase.OptimalPurchasePlan: requires a weight for every supplier, whose absence makes the source raise a `KeyError` (first.py line 19). It also requires an incompatibility list for every supplier, because the function's documentation (first.py lines 42-44) describes a mapping for each identifier. The source reads a list only for the chosen suppliers the compatibility check reaches, so it can succeed when only other suppliers lack one: suppliers a and b with weights 1 and -5 and a list only for a return `['a']`. Incompatibility sets are modelled as sequences.
- Motif.FindRecurrentPattern: takes the pattern length as a natural number, so negative lengths are not modelled. With a negative length and a non-empty alphabet the source's pattern generator recurses until Python raises `RecursionError`. With an empty alphabet it yields nothing, and `max` on the empty dictionary raises `ValueError` (third.py line 125).
- Comparison.CompareSolvers: requires non-negative weights, as the source's uniform random weights are, because the First Fit bound needs them.
