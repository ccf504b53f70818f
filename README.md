# Bayesian network builder — a Dafny model

This project models the core of `main.py` from bayesianizer. That program reads a
network declaration (nodes with value lists and grid positions, edges `A -> B`) and a
CSV table of observations. It estimates one conditional probability table (CPD) per node
from frequency counts, using a fallback approximation when a condition has too
little data. It exports the network for the SamIam tool, or alternatively lists the pairs
of nodes that never co-occur.

The model follows the program stage by stage:

| file | module | what it models |
|---|---|---|
| `basics.dfy` | `Basics` | `Option`, `Result`, repetition-free sequences |
| `formats.dfy` | `Formats` | the name, value, position and edge patterns, as scanners over characters |
| `declarations.dfy` | `Declarations` | node declaration checks, edge resolution, condition counts; class `Network` holds the tables the program updates in place |
| `loops.dfy` | `Loops` | the depth-first loop finder (class `LoopFinder`) and the graph facts it relies on |
| `dataset.dfy` | `Dataset` | the cell check, the `(column, value) -> row indices` index, and row counting |
| `conditions.dfy` | `Conditions` | the cartesian product of parent values, in `itertools.product` order |
| `decimal16.dfy` | `Decimal16` | probabilities as whole numbers of 10^-16, and `roundForSamiam` |
| `rounding.dfy` | `Rounding` | `removeRoundingErrors`, in place on an array |
| `estimator.dfy` | `Estimator` | one CPD row (direct or fallback), one node's table, the run over all nodes (class `CpdEstimator`) |
| `diagnostics.dfy` | `Diagnostics` | the incompatible and compatible pair report |

Representation choices:

- A probability is an integer number of units of 10^-16 (`Decimal16.Scale` units make 1).
  A raw quotient such as `count / matched` is a Dafny `real`. `roundForSamiam` is its floor
  in units.
- A CSV record is a `map<string, string>`. A column missing from the map is a `None` field.
- Each CPD row is specified by a ghost function, `Estimator.CpdRow`. It returns
  `Err(EmptyDomain)` or `Err(NoParents)` for the two inputs on which the program crashes:
  - `EmptyDomain`, a node without values. With parents, the union of no sets fails
    (`main.py:720`). Without parents the count is 0, so the fallback is taken, and
    `1/Decimal(0)` fails there (`main.py:563`).
  - `NoParents`, a parentless node with values and too little data. The fallback divides
    by zero parents (`main.py:598`).

The model follows the code where the code differs from what its comments and messages
promise:

- `main.py:313` tests the length of the node list instead of the value list. A node with an
  empty value list is therefore accepted (`Declarations.DeclFault`), and later reaches the
  `EmptyDomain` error.
- Duplicate edges are accepted, and each occurrence appends the endpoints again.
- Names and values follow Python's `$`, which also matches before one final newline.
- The edge pattern's greedy source group takes the longest token that still leaves a valid
  tail. `"A->B->C"` therefore has source `"A->B"` and target `"C"`.

## Model

| member | source | states |
|---|---|---|
| Basics.DistinctLengthBound | main.py:385-397 | a path of distinct visited names is no longer than the set of names, which bounds the loop finder's recursion |
| Formats.ParsePosition | main.py:86 | a parsed position has a row and a column that are both at least 1 |
| Formats.ScanPositionSound | main.py:86 | a position the scanner returns splits the string exactly as the position pattern demands |
| Formats.ScanPositionComplete | main.py:86 | every way of matching the position pattern is found by the scanner (the match is unique) |
| Formats.NumberPositive | main.py:86 | a `[1-9][0-9]*` digit run denotes a positive number |
| Formats.ScanEdge | main.py:87 | a scanned edge splits the string into spaces, a non-space source, an arrow `->` or `=>` and a non-space target |
| Formats.ScanEdgeLongest | main.py:87 | of all ways to match the edge pattern, the scanner picks the longest source, as the greedy group does |
| Formats.ParseEdge | main.py:87 | a parsed edge has a non-empty source and a non-empty target |
| Formats.ParseEdgeRoundTrip | main.py:87 | `source + "->" + target` parses back to `(source, target)` when neither contains spaces and the target holds no arrow |
| Declarations.FirstEqual | main.py:325-327 | finds the first earlier value equal to value `j`, or reports that there is none |
| Declarations.ValuesFaultNone | main.py:316-329 | the value check passes iff every value matches the value pattern and no two are equal |
| Declarations.ValuesFaultFirst | main.py:316-327 | a reported value fault names the first bad value, or the first duplicate together with its first earlier copy |
| Declarations.CheckValues | main.py:316-329 | the loop over values reports exactly the fault of the specification function and otherwise accepts the values in order |
| Declarations.DeclFault | main.py:282-342 | a declaration without fault has a parsable position |
| Declarations.DeclFaultMeaning | main.py:288-339 | each error kind is reported iff its own check fails and every earlier check passes, in the program's order: name format, name taken, csv name taken, values (with the value fault itself), position; any fault carries the declaration's index |
| Declarations.DeclareOk | main.py:263-342 | declaring succeeds iff the list is non-empty and every declaration is well formed and fresh (name and csv name not used before) |
| Declarations.DeclareResult | main.py:294-342 | on success the order is extended by the names, earlier nodes and csv names are kept, every declared node is built from its declaration, and nothing else is added |
| Declarations.DeclareError | main.py:273-342 | `NoNodes` iff the list is empty; any other error names a declaration `x` such that every earlier declaration passes all of its checks against the names taken before it, and for `x` the named check fails while every earlier check passes; a name or csv-name clash is with a node already present or declared earlier in the list |
| Declarations.DeclareFromWellFormed | main.py:291-305 | declaring keeps the node table, the csv-name table and the order consistent with each other |
| Declarations.AddEdgeAt | main.py:370-371 | one edge appends the target to the source's children and the source to the target's parents, and changes nothing else |
| Declarations.AddEdgeWellFormed | main.py:365-371 | connecting two existing nodes keeps the tables consistent |
| Declarations.ConnectOk | main.py:353-368 | connecting succeeds iff every edge string parses and both of its endpoints are declared |
| Declarations.ConnectError | main.py:353-368 | a failure reports the first faulty edge: unparsable, source missing, or target missing, checked in that order |
| Declarations.ConnectKeys | main.py:353-371 | connecting adds or removes no node |
| Declarations.ConnectResult | main.py:353-371 | after connecting, each node's children are its old children followed by the targets of its edges in order, and its parents likewise |
| Declarations.ConditionCount | main.py:604-611 | the number of generated conditions equals the product of the parents' domain sizes |
| Declarations.Network.CheckDecl | main.py:282-342 | checks one declaration against the current tables and returns its fault, or the node it builds |
| Declarations.Network.ParseNodes | main.py:263-342 | the new state is the state `Declare` computes, or the error `Declare` reports |
| Declarations.Network.ParseEdges | main.py:344-371 | the nodes become what `Connect` computes, or the error `Connect` reports, and the order and csv names are unchanged |
| Declarations.Network.EstimateComplexity | main.py:604-611 | each node's complexity equals the number of conditions its parents generate |
| Conditions.ProductLength | main.py:645-656 | the product has as many conditions as the product of the list lengths |
| Conditions.ProductShape | main.py:645-656 | every condition picks one entry from each list, in list order |
| Conditions.ProductComplete | main.py:645-656 | every such pick is a condition |
| Conditions.ProductOrder | main.py:655 | conditions come in blocks by the first list's entry, with the last list varying fastest, as `itertools.product` orders them |
| Loops.ChildReachesLoop | main.py:405-421 | a node that reaches a cycle either lies on it or has a child that reaches it |
| Loops.NoChildLoop | main.py:398-421 | a node none of whose children reaches a cycle does not reach one itself, for leaves too |
| Loops.CycleIffLoop | main.py:424-427 | the graph has a cycle iff some node reaches one |
| Loops.LoopFinder.Find | main.py:377-421 | on a loop, the recorded path starts with the visited names, repeats no name and closes back on one of them; otherwise no loop is reachable from the node, the recorded path is unchanged, and every checked name is on the current path or reaches no loop |
| Loops.LoopFinder.FindAny | main.py:424-426 | scanning all nodes finds a loop iff the graph has a cycle |
| Loops.CheckNetworkForLoops | main.py:373-427 | a looping path is reported iff the child graph has a cycle, and the reported path is a repetition-free walk closing back on itself |
| Dataset.CheckCells | main.py:453-462 | reports no fault iff every present cell of a declared column holds a declared value; a fault names the first bad cell |
| Dataset.CleanRowsKnown | main.py:453-462 | after the cell check passes, every present cell of a declared column is in its domain |
| Dataset.EmptySets | main.py:676-681 | one empty index set per declared value |
| Dataset.EmptyIndex | main.py:668-683 | one entry per column, one empty set per declared value |
| Dataset.AddRow | main.py:687-695 | adding a row puts its index in the set of each of its present values and nowhere else |
| Dataset.PrepareIndex | main.py:659-695 | the set for column `c` and value `v` holds exactly the indices of the rows whose `c` field is `v` |
| Dataset.Count | main.py:698-740 | a count is missing (the program crashes) iff no value is given, the condition is non-empty and the column's domain is empty |
| Dataset.CountMeaning | main.py:698-740 | every count equals the number of rows that have the value (or any value) in the column and satisfy every condition pair |
| Dataset.CountPartition | main.py:708-720 | the counts per domain value add up to the count of rows with any value |
| Dataset.CountBounds | main.py:715-740 | a per-value count is at most the column count, which is at most the number of rows |
| Dataset.CountMonotone | main.py:730-737 | an extra condition pair never increases a count |
| Dataset.SumSizesMatch | main.py:708-710 | the sum of the set sizes counts the rows with a value in the column |
| Dataset.UnionAllMatch | main.py:718-720 | the union of a column's sets is the set of rows with a value in that column |
| Dataset.IntersectAllMatch | main.py:733-735 | the intersection of the condition's sets is the set of rows satisfying the whole condition |
| Decimal16.RoundForSamiam | main.py:614-617 | the result is the largest multiple of 10^-16 not above the input |
| Decimal16.FloorRow | main.py:598 | each rounded entry lies within one unit below its exact value |
| Decimal16.FloorRowTotal | main.py:614-617 | rounding a row loses less than one unit per entry in total |
| Decimal16.FloorStochasticRow | main.py:621-624 | rounding a distribution leaves at most 1, misses fewer units than there are entries, and keeps some entry positive |
| Rounding.SpreadSum | main.py:627-639 | handing out `t` increments raises the row's sum by exactly `t` |
| Rounding.CorrectedSumsToOne | main.py:619-642 | after correction the row sums to exactly 1 |
| Rounding.CorrectedKeepsZeros | main.py:629-637 | correction keeps the length, never lowers an entry, and leaves zero exactly the entries that were zero |
| Rounding.CorrectedGainBound | main.py:621-639 | no entry gains more than the missing total |
| Rounding.CorrectedRoundRobin | main.py:627-639 | increments go round-robin over the non-zero entries in index order: an earlier entry gains the same as a later one, or one more |
| Rounding.RemoveRoundingErrors | main.py:619-643 | the array afterwards holds the corrected row |
| Estimator.CountsSum | main.py:524-526 | the per-value counts add up to the number of matching rows holding one of those values |
| Estimator.CountsPartition | main.py:519-526 | the per-value counts under a condition add up to the condition's count |
| Estimator.FrequenciesStochastic | main.py:524-531 | the value frequencies under a condition with matches form a distribution |
| Estimator.ParentRowStochastic | main.py:568-590 | each single-parent row, measured or uniform, is a distribution |
| Estimator.AverageStochastic | main.py:563-598 | the average of the single-parent rows is a distribution |
| Estimator.RoundedRow | main.py:529-533 | a rounded and corrected distribution sums to 1, each entry is its floor plus fewer units than there are entries, and is zero iff its floor is zero |
| Estimator.CpdRowSumsToOne | main.py:541 | every CPD row that is computed has one entry per value and sums to exactly 1 |
| Estimator.CpdRowErrors | main.py:519-538 | the row fails with `EmptyDomain` iff the domain is empty, and with `NoParents` iff there is no parent and too little data |
| Estimator.CpdRowDirect | main.py:519-533 | with enough data each entry is its rounded frequency plus less than one unit per entry, is zero iff that floor is zero, and a value never seen gets 0 |
| Estimator.DirectRow | main.py:519-533 | with enough data the row is the corrected floor of the frequencies |
| Estimator.FallbackRow | main.py:534-538 | with too little data and some parent, the row is the corrected floor of the average single-parent row |
| Estimator.ParentRowMeaning | main.py:571-590 | a parent's row is the uniform row when its pair has too little data, otherwise the frequencies under that pair |
| Estimator.CpdRowFallback | main.py:552-602 | each fallback entry is its rounded average plus less than one unit per entry, and is zero iff that floor is zero |
| Estimator.SparseParents | main.py:571-578 | when no parent pair has enough data, every single-parent row is uniform |
| Estimator.AllSparse | main.py:563-602 | when no parent pair has enough data, the row is the corrected uniform row |
| Estimator.ConditionInDomains | main.py:645-656 | every generated condition pairs a parent's csv column with one of its values |
| Estimator.TableRows | main.py:485-547 | a node's table, when computed, has one row per condition, each the CPD row for that condition |
| Estimator.TableError | main.py:506-547 | a failing table fails with the error of its first failing condition |
| Estimator.TableStochastic | main.py:541-547 | every row of a computed table has one entry per value and sums to 1 |
| Estimator.TableStatsBounds | main.py:540-544 | a table adds one calculated row per condition, and at most that many little-data rows |
| Estimator.CpdEstimator.FrequencyRow | main.py:524-533 | computes the corrected floor of the frequencies |
| Estimator.CpdEstimator.FloorRatios | main.py:524-531 | the new array holds each value's count under the condition divided by the condition's count, rounded down to 16 digits |
| Estimator.CpdEstimator.ParentRowOf | main.py:570-590 | computes one parent's row and counts it when its data is too little |
| Estimator.CpdEstimator.Approximate | main.py:552-602 | the fallback row, or its error, and the number of little-data parents added to the counter |
| Estimator.CpdEstimator.SumParents | main.py:565-595 | the accumulator holds the entry-wise sum of the single-parent rows |
| Estimator.CpdEstimator.AddParent | main.py:566-595 | adding parent `j` extends the running sum by its row |
| Estimator.CpdEstimator.AddInto | main.py:593-595 | adds a row entry-wise into the accumulator |
| Estimator.CpdEstimator.RoundedAverage | main.py:598-600 | computes the corrected floor of the average |
| Estimator.CpdEstimator.CalculateRow | main.py:517-544 | computes the CPD row or its error, and raises the statistics counters by that row's statistics |
| Estimator.CpdEstimator.DirectCase | main.py:521-544 | the direct branch computes the CPD row and counts it |
| Estimator.CpdEstimator.SparseCase | main.py:534-544 | the fallback branch computes the CPD row or its error and counts it as little data |
| Estimator.CpdEstimator.NodeTable | main.py:485-547 | computes the node's table, or the first row error, and the table's statistics |
| Estimator.CpdEstimator.CalculateNode | main.py:490-547 | computes a node's table over its generated conditions and, on success, adds that table's statistics to the counters |
| Estimator.CpdEstimator.StoreNode | main.py:477-547 | stores one node's table and adds its statistics to the counters, or reports its error as the run's failure |
| Estimator.CpdEstimator.RunComplete | main.py:481-547 | a successful run gives every declared node, and no other, its computed table |
| Estimator.CpdEstimator.RunFailure | main.py:481-547 | a failed run names the first node in declaration order whose table fails, every earlier node having succeeded |
| Estimator.CpdEstimator.CalculateCpds | main.py:477-547 | the stored tables become the run's tables and the counters grow by the run's statistics, or the run's failure is reported |
| Estimator.RunStatsBounds | main.py:506-544 | over a run the calculated-distribution counter grows by the number of conditions of every node, and the little-data counter by no more than that |
| Diagnostics.ValuePairs | main.py:803 | there are as many value pairs as the product of the two domain sizes |
| Diagnostics.ValuePairsMembers | main.py:803 | a pair is listed iff its first value is in the first domain and its second in the second |
| Diagnostics.LastPair | main.py:810-811 | the last listed pair is the pair of both last values |
| Diagnostics.PairCountMeaning | main.py:806-807 | a pair's count is zero iff no row holds both values in the two columns |
| Diagnostics.ScanMeaning | main.py:803-811 | a node pair is incompatible iff some value pair has count 0, and then the reported pair has count 0; otherwise every pair has a positive count and it is reported as compatible with the last pair; it has no outcome iff a domain is empty |
| Diagnostics.ScanPairs | main.py:803-811 | the loop with its early exit computes the scan outcome |
| Diagnostics.AllReports | main.py:789-811 | a report appears in a list iff it is the outcome of some node pair `i < j` of that kind |
| Diagnostics.IncompatibleNodes | main.py:789-811 | the nested loops build exactly the two report lists |
| Diagnostics.ItemsEnumerate | main.py:790 | in a well-formed network the listed nodes are exactly the network's nodes, each once, in declaration order |

## Left out

- Command-line parsing, option handling and help text (`main.py:148-202`): these are I/O. The configuration values the core needs are parameters.
- Loading the JSON file, its type checks and its preferences (`main.py:204-261`): the model starts from typed declarations. A declaration field that is missing or has the wrong type is not modelled. The data threshold is a `nat`, because the preference check at `main.py:260` tests `gridSizeY` instead of the threshold; a negative threshold is not modelled.
- Reading the CSV file, the empty-file check and the header check (`main.py:429-451`): these are file I/O. The model receives the header and the records as values.
- The XMLBIF export (`main.py:744-787`): this is output formatting only.
- Printing, progress messages, the statistics printout and `errorAndExit`: these are I/O. An exit becomes an `Err` or `Some(fault)` result.
- Python's `re` engine: each pattern is modelled by a hand-written scanner, proved to find exactly the matches the pattern defines.
- Decimal16.RoundForSamiam: quotients are exact rationals. Python's 28-digit `Decimal` context rounding of the quotient before flooring is not modelled, nor is the rounding of the sums in the fallback.
- Rounding.RemoveRoundingErrors: requires the floored row to be at most 1 and to have a non-zero entry when it is short of 1. On a row of zeros the program loops forever. `Decimal16.FloorStochasticRow` proves every row the program actually passes meets this requirement.
- Estimator.CpdEstimator: the domains must have at most 10^16 values each, which keeps the missing total below one unit per entry. The program handles larger domains only with different rounding behaviour.
- Loops.LoopFinder.Find: the program hands the original visited list to the last child and copies to the others. Later changes to that list cannot be observed, so the model gives each call its own value.
- Loops.CheckNetworkForLoops: states that the reported path is a repetition-free walk closing back on itself. It does not state which of several cycles the declaration order finds first.
- Estimator.CpdEstimator.CalculateCpds: the nodes are computed in declaration order (`st.order`). On a failure the contract names the failing node and its error, and leaves unstated which earlier tables were stored, since the program aborts at that point.
- The printing of the incompatible list (`main.py:815-823`) is output only. Either `-p` or `-P` triggers it (`main.py:464-466`); the compatible list is built but never printed. Both lists are modelled.
