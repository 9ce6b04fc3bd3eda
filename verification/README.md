# Pivoted Bron–Kerbosch clique search: a verified model

This project models the clique-finding core of a small Rust program that
reads an edge list (a CSV of `u32` vertex pairs) into an undirected
adjacency map `HashMap<u32, HashSet<u32>>` and lists its maximal cliques
with the Bron–Kerbosch algorithm with Tomita pivoting. The repository
holds three near-copies of the search:

- `run_bron_kerbosch`, the search the program runs;
- `bron_kerbosch_v2` in `project_code/src/copied_alg.rs`, the oracle its
  tests compare against;
- an earlier `bron_kerbosch_v2` in `src/copied_alg.rs`.

It also holds two pieces around them: the loop that builds the adjacency
map, and a first prototype with a directed map and a most-connected-node
query.

The three searches differ only in how they rank pivots, in their size
threshold and in candidate order. They are modelled as one engine,
`CliqueSearch.Search`, parameterised by a `Variant`. A search frame is the
source's triple (R, P, X). The model states what every frame reports
(`Found`): the maximal cliques that contain R, take their other vertices
from P, pass the threshold and contain no self-looped vertex. It proves
that each call appends exactly these, each once and sorted ascending,
without touching earlier entries. It also proves that P and X end moved
as the source moves them. From the top-level frame (R = ∅, P = every key,
X = ∅), every variant therefore lists the maximal cliques of the graph
that pass its threshold and contain no self-looped vertex; on a graph
without self-loops, that is every maximal clique that passes it. The production search and the oracle give lists
that are permutations of each other, which is what the tests compare.

Modules:

- `Common`: `u32`, `Option`, and the library operations the code uses (collecting a set into a vector, `sort`, `max_by_key`).
- `Graphs`: the adjacency map, cliques, maximal cliques, self-loops.
- `CliqueSearch`: the engine, its frame invariant, and the lemmas behind it.
- `BronKerbosch`, `CopiedAlg`, `EarlyCopiedAlg`: the three entry points, the top-level run, the tests' cross-check and the tests' two-triangle scenario.
- `FileReading`: the edge-insertion loop of `csv_to_hashmap`, over already-parsed records.
- `Prototype`: the directed `Vec` map and `find_connected_node` of `src/main.rs`.
- `SelfLoops`: what self-loops do to the search, and the corrected run.

## Model

| member | source | states |
|---|---|---|
| CliqueSearch.Search | project_code/src/bron_kerbosch.rs:30-69 | on a symmetric graph and a frame (R a clique, P and X disjoint, P ∪ X the common neighbours of R), the entries appended are exactly the reportable cliques containing R and drawn from P, each once, each strictly ascending; earlier entries are kept; P ends as P ∩ N(pivot) and X gains the explored candidates, for a pivot that maximises the variant's key over P ∪ X |
| CliqueSearch.Explore | project_code/src/bron_kerbosch.rs:56-68 | the loop over the candidates P \ N(pivot) appends exactly what the frame reports, each clique once and sorted; afterwards P is P ∩ N(pivot) and X is X ∪ (P \ N(pivot)) |
| CliqueSearch.Branch | project_code/src/bron_kerbosch.rs:57-65 | the recursive call for a candidate v appends exactly the cliques reported by the child frame (R ∪ {v}, P ∩ N(v), X ∩ N(v)), each once and sorted, after the earlier entries |
| CliqueSearch.ChoosePivot | project_code/src/bron_kerbosch.rs:47-50 | the pivot is a member of P ∪ X whose key no other member exceeds; the `unwrap` cannot fail since P ∪ X is non-empty |
| CliqueSearch.Candidates | project_code/src/bron_kerbosch.rs:53-54 | the candidates are exactly P \ N(pivot), with an absent pivot key meaning no neighbours, listed without repeats, and strictly ascending when the variant sorts them |
| CliqueSearch.SortedClique | project_code/src/bron_kerbosch.rs:40-41 | the saved vector holds exactly the members of R, strictly ascending, and has one entry per member of R |
| CliqueSearch.OptionalDegreeRanksAbsentLowest | project_code/src/bron_kerbosch.rs:49 | the numeric pivot key orders vertices exactly as Rust orders their `Option<usize>` degrees, so a vertex that is not a key ranks below every key |
| CliqueSearch.TopFrame | project_code/src/bron_kerbosch.rs:147-149 | the top-level call (∅, all keys, ∅) is a frame, and it reports the maximal cliques that pass the threshold and contain no self-looped vertex |
| CliqueSearch.LoopFreeGraphReportsAll | project_code/src/bron_kerbosch.rs:4-27 | on a graph without self-loops the top-level frame reports every maximal clique that passes the threshold |
| CliqueSearch.LeafReports | project_code/src/bron_kerbosch.rs:38-45 | a frame with P and X empty reports R alone if the size of R passes the threshold, and nothing otherwise |
| CliqueSearch.LeafIsMaximal | project_code/src/bron_kerbosch.rs:13-15 | when P and X are empty, R is a maximal clique with no self-looped vertex |
| CliqueSearch.NonLeafReportsSupersets | project_code/src/bron_kerbosch.rs:38-45 | a frame with P ∪ X non-empty reports only cliques strictly larger than R, so only leaves append |
| CliqueSearch.SelfLoopInCliqueIsCommonNeighbour | project_code/src/bron_kerbosch.rs:60-63 | a self-looped member of R is adjacent to all of R, so it stays in P ∪ X |
| CliqueSearch.ChildFrame | project_code/src/bron_kerbosch.rs:57-63 | for a candidate v not adjacent to the pivot, (R ∪ {v}, P ∩ N(v), X ∩ N(v)) is again a frame and v ∉ R, so the recursion descends |
| CliqueSearch.MoveKeepsFrame | project_code/src/bron_kerbosch.rs:66-67 | moving explored candidates from P to X keeps P and X disjoint and P ∪ X unchanged |
| CliqueSearch.SplitOnCandidate | project_code/src/bron_kerbosch.rs:56-68 | what a frame reports splits into the cliques with v (the child frame's) and those without v (the frame after v leaves P), with no overlap |
| CliqueSearch.SplitMember | project_code/src/bron_kerbosch.rs:56-68 | the same split for a single clique |
| CliqueSearch.PivotLeavesNothing | project_code/src/bron_kerbosch.rs:53-54 | a frame whose P lies within the pivot's neighbours reports nothing, which is why neighbours of the pivot are never branched on |
| CliqueSearch.StepKeepsReports | project_code/src/bron_kerbosch.rs:65-67 | after the child call for v and its move, the cliques listed so far and those still to come are disjoint and together make up what the frame reports |
| CliqueSearch.SingleReport | project_code/src/bron_kerbosch.rs:42 | a list holding one saved clique names exactly its set and repeats nothing |
| CliqueSearch.AppendReports | project_code/src/bron_kerbosch.rs:42 | appending lists unions their clique sets, and keeps entries sorted and unrepeated when the two lists share no set |
| CliqueSearch.RaisingThresholdKeepsLarger | project_code/src/bron_kerbosch.rs:39 | raising the inclusive threshold keeps exactly the maximal cliques at least as large as the new threshold |
| CliqueSearch.StrictBoundIsInclusive | src/copied_alg.rs:11 | a strict bound `> b` reports the same cliques as the inclusive threshold `>= b + 1` |
| CliqueSearch.NoRepeatsIsDistinct | project_code/src/bron_kerbosch.rs:167-172 | a list that repeats no vertex set repeats no entry |
| CliqueSearch.ListedIn | project_code/src/bron_kerbosch.rs:167-172 | a sorted entry of one list is an entry of any other sorted list that reports its set |
| CliqueSearch.SameReportsArePermutations | project_code/src/bron_kerbosch.rs:166-172 | two sorted, repeat-free lists that report the same sets are permutations of each other, so they are equal once sorted |
| BronKerbosch.RunBronKerbosch | project_code/src/bron_kerbosch.rs:30-69 | with the production variant (`Option` degree pivot, inclusive `u32` threshold widened to `usize`), the entries appended are exactly the reportable cliques of the frame, each once and sorted; P and X end moved as the source moves them |
| BronKerbosch.FindCliques | project_code/src/bron_kerbosch.rs:147-158 | from R = ∅, P = all keys, X = ∅ and an empty list, the list holds each maximal clique of at least `min_value` vertices that has no self-looped vertex exactly once, sorted; on a loop-free graph, every such maximal clique |
| BronKerbosch.CrossCheck | project_code/src/bron_kerbosch.rs:147-172 | the production search and the oracle, from the top-level frame with the same threshold, give lists that each hold every reportable clique once, sorted ascending, and that are permutations of each other, and so equal once sorted |
| BronKerbosch.CliqueWithinTriangle | project_code/src/bron_kerbosch.rs:80-93 | in the two-triangle graph every clique lies inside one triangle |
| BronKerbosch.TriangleIsMaximal | project_code/src/bron_kerbosch.rs:80-93 | each triangle is a maximal clique |
| BronKerbosch.FillsTriangle | project_code/src/bron_kerbosch.rs:80-93 | a maximal clique inside a triangle is the whole triangle |
| BronKerbosch.WithinTriangleIsClique | project_code/src/bron_kerbosch.rs:80-93 | any set of vertices of one triangle is a clique |
| BronKerbosch.TwoTrianglesUndirected | project_code/src/bron_kerbosch.rs:80-101 | the test's graph lists every edge both ways and has no self-loop |
| BronKerbosch.TwoTrianglesMaximal | project_code/src/bron_kerbosch.rs:80-101 | the maximal cliques of the test's graph are exactly the two triangles |
| BronKerbosch.TwoTrianglesScenario | project_code/src/bron_kerbosch.rs:80-118 | the test's graph is symmetric and loop-free, and its maximal cliques of at least 2 vertices are exactly {1, 2, 3} and {4, 5, 6} |
| BronKerbosch.SmallScaleTest | project_code/src/bron_kerbosch.rs:107-123 | both searches on the two triangles at threshold 2 report exactly the two triangles, each once and sorted ascending (`[[1, 2, 3], [4, 5, 6]]` up to order), and their lists are equal once sorted |
| CopiedAlg.BronKerboschV2 | project_code/src/copied_alg.rs:3-64 | with a pivot ranked by neighbours other than itself, an inclusive `usize` threshold and ascending candidates, the entries appended are exactly the reportable cliques of the frame, each once and sorted; P and X end moved as the source moves them |
| EarlyCopiedAlg.BronKerboschV2 | src/copied_alg.rs:3-49 | with a raw-degree pivot and the strict threshold `> 2`, the entries appended are exactly the frame's reportable cliques of at least 3 vertices, each once and sorted, each of length at least 3 |
| FileReading.CsvToHashmap | project_code/src/file_reading.rs:13-28 | the loop stops at the first rejected record with an error and no map (the model's error records that record's index); otherwise the result is the map built from all rows in order |
| FileReading.AddEdgeContents | project_code/src/file_reading.rs:18-24 | one row adds both endpoints as keys and joins them both ways, and changes nothing else |
| FileReading.UndirectedContents | project_code/src/file_reading.rs:13-26 | after any prefix of rows the keys are exactly the endpoints seen, and b ∈ map[a] exactly when some row joins a and b in either direction |
| FileReading.UndirectedIsSymmetric | project_code/src/file_reading.rs:17-24 | after any prefix of rows, b ∈ map[a] if and only if a ∈ map[b] |
| FileReading.RowIsRecorded | project_code/src/file_reading.rs:18-24 | both endpoints of every row are keys, and each lists the other |
| FileReading.NoEmptyNeighbourSets | project_code/src/file_reading.rs:19-24 | every key has a non-empty neighbour set |
| FileReading.SelfLoopRowIsKept | project_code/src/file_reading.rs:15-24 | a row (a, a) leaves a ∈ map[a] |
| FileReading.RowsOnlyAdd | project_code/src/file_reading.rs:18-24 | processing a row never removes a key or a neighbour |
| FileReading.RepeatedRowChangesNothing | project_code/src/file_reading.rs:20-24 | repeating a row, or adding its reverse, leaves the map unchanged |
| Prototype.CsvToHashmap | src/main.rs:9-18 | the loop stops at the first rejected record with an error (the model's error records that record's index); otherwise the result is the directed map of all rows |
| Prototype.DirectedContents | src/main.rs:9-16 | the keys are exactly the start vertices, and each key lists the end vertices of its rows in row order, once per row |
| Prototype.TargetsAppend | src/main.rs:13-15 | one more row adds its end vertex to the targets of its start vertex and changes no other vertex's targets |
| Prototype.TargetsOfNonStart | src/main.rs:13-15 | a vertex no row starts at has no targets |
| Prototype.RowAppendsAgain | src/main.rs:13-15 | a repeated row appends its end vertex again, so the start vertex's list grows by one |
| Prototype.OneWayOnly | src/main.rs:13-15 | the map is directed: the row (1, 2) gives the map {1: [2]}, and 2 is not a key |
| Prototype.FindConnectedNode | src/main.rs:21-27 | None exactly for the empty map; otherwise a key whose list is at least as long as every other key's |
| SelfLoops.LoopHidesMaximalClique | project_code/src/bron_kerbosch.rs:38-54 | the rows (1, 2) and (1, 1) give {1: {1, 2}, 2: {1}}, whose maximal clique {1, 2} passes threshold 2, yet the top-level frame reports nothing |
| SelfLoops.LoopRows | project_code/src/file_reading.rs:13-26 | the rows (1, 2) and (1, 1) build the map {1: {1, 2}, 2: {1}} |
| SelfLoops.PairIsMaximal | project_code/src/bron_kerbosch.rs:38-54 | in that map {1, 2} is a maximal clique of two vertices |
| SelfLoops.LoopedGraphReportsNothing | project_code/src/bron_kerbosch.rs:38-54 | in that map no vertex set is reportable |
| SelfLoops.WithoutSelfLoops | project_code/src/bron_kerbosch.rs:4-27 | removing self-loops keeps the keys and every edge between distinct vertices, and leaves no self-loop |
| SelfLoops.WithoutSelfLoopsKeepsCliques | project_code/src/bron_kerbosch.rs:4-27 | removing self-loops keeps a graph symmetric and leaves its maximal cliques unchanged |
| SelfLoops.FindAllMaximalCliques | project_code/src/bron_kerbosch.rs:4-27 | the corrected top-level run lists every maximal clique of at least `min_value` vertices exactly once, sorted, self-loops or not |
| Common.Collect | project_code/src/bron_kerbosch.rs:54 | collecting a set gives each of its elements exactly once |
| Common.Sort | project_code/src/bron_kerbosch.rs:41 | `sort` gives an ascending permutation of its input |
| Common.SortDistinct | project_code/src/bron_kerbosch.rs:40-41 | sorting a repeat-free vector gives the strictly ascending listing of its values |
| Common.AscendingListingIsUnique | project_code/src/bron_kerbosch.rs:40-41 | a set has exactly one strictly ascending listing |
| Common.MaxByKey | project_code/src/bron_kerbosch.rs:47-50 | `max_by_key` over a non-empty set returns a member whose key no member exceeds |

## Left out

- Reading the CSV file, the `csv` reader and `parse::<u32>()` are not part of this model. Both loops take the records those produce: a parsed pair, or a record that the reader or the parser rejects.
- The error value: the source returns the reader's or the parser's boxed error. The parser's `ParseIntError` names no row; the reader's errors (such as `UnequalLengths`) may carry the record's position. The model's `Err(row)` records the index of the first rejected record in both cases; both stop at that record and return no map.
- A record whose field count differs from the header's is rejected by the reader (`UnequalLengths`, the `csv` reader's default), which `Unreadable` covers. Only a file whose header also has fewer than two fields reaches the panic at `record.get(..).unwrap()`; that panic is not modelled.
- All `println!` output, file paths and the large-scale test's data set are not modelled.
- The order in which a `HashSet` is iterated is unspecified. On ties `max_by_key` keeps the last maximum it meets, so which vertex it keeps is unspecified too. Collecting a set, choosing a pivot and choosing the most-connected node may therefore return any admissible result. Only the oracle's candidate order (ascending) is fixed.
- CliqueSearch.Search: in-place updates of the caller's `p`, `x` and `cliques` are modelled as values passed in and returned (`pOut`, `xOut`, `cliquesOut`). The graph and R are immutable values, so "the graph is not mutated", which the large-scale test asserts, holds by construction.
- CliqueSearch.Search: the requires clause asks for a symmetric graph and a valid frame. The source does not check either. The graph `csv_to_hashmap` builds is symmetric (`FileReading.UndirectedIsSymmetric`), and the top-level call is a frame (`CliqueSearch.TopFrame`). Runs on asymmetric maps are not modelled.
- BronKerbosch.CrossCheck: sorting the two lists of cliques (`Vec<Vec<u32>>::sort`, lexicographic) is not modelled. Instead, the contract states that the lists are permutations of each other, which holds exactly when they are equal once sorted.
- BronKerbosch.SmallScaleTest: the test at `project_code/src/bron_kerbosch.rs:123` compares the `()` values returned by the two `sort` calls, so as written it checks nothing. The member states the comparison the test evidently intends.
- Integer widths: vertex ids are `u32` (a newtype). Lengths and thresholds are unbounded naturals. No arithmetic in the core can overflow.
- Recursion depth, cloning costs and other performance aspects are not modelled.
- `project_code/src/data_analysis.rs`, `project_code/src/main.rs`, `project_code/src/tests.rs` and `src/file_reading.rs` are not part of this model. They hold floating-point statistics, plotting, pipeline glue, duplicated tests and a superseded directed loop.

## Findings

| source | as written | input that shows it | evidently intended | confidence | as-written member | corrected member |
|---|---|---|---|---|---|---|
| project_code/src/bron_kerbosch.rs:38-54 | ingestion keeps a row (a, a) as a ∈ N(a) (`project_code/src/file_reading.rs:18-24`); a looped vertex in R then stays in P ∪ X, so the frame never reaches a leaf and no maximal clique containing a looped vertex is reported | rows (1, 2), (1, 1) with `min_value` 2: the map is {1: {1, 2}, 2: {1}}, its maximal clique {1, 2} has two vertices, and nothing is reported | every maximal clique of at least `min_value` vertices is reported, with or without self-loops | proved on the model; not executed | SelfLoops.LoopHidesMaximalClique | SelfLoops.FindAllMaximalCliques |
