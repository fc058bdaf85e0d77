# Pumping-station placement: a verified model of Prim's algorithm and the station selector

The program reads a list of oil platforms and a list of candidate pumping stations, both given
as points in the plane. For each station it computes the length of a minimum spanning tree
over all platforms plus that one station. It then reports the first station whose tree is
shortest, with that length. This project models the two pieces of logic in `src/main.cpp`:

- `mst_length` (Prim's algorithm in its dense O(n²) form) is `Prim.MstLength`. It is a method
  over two arrays: `inMst` holds the tree-membership flags and `minEdge` the fringe values. The
  candidate scan becomes the method `Prim.SelectCheapest` and the relaxation loop becomes
  `Prim.RelaxFrom`. Both keep the loop shape of the source.
- The candidate-selection loop of `main` becomes `Selector.BestStation`. `Selector.Run` adds the
  check that refuses empty input.

Each method is proved against pure specification functions that follow the source: `ScanFrom`
and `Select` for the scan, `Relaxed` for the relaxation, `Rounds` for the outer loop with its
early `break`, and `PrimLength` for the whole of `mst_length`. The properties are then proved
about those functions:

- The scan picks the lowest-index outside node of least fringe value.
- Relaxing from a new node keeps every fringe value equal to the distance to the nearest tree node.
- Every round adds exactly one new node and a non-negative amount.
- On the complete graph the loop never stops early.
- `PrimLength` is the weight of a minimum spanning tree. It is the weight of some spanning
  tree, and it is no greater than the weight of any spanning tree.

Modelling choices:

- **Distances.** `dist` computes a square root over doubles, so it is not modelled numerically.
  Every length is `w(a, b)` for a parameter `w: (Point, Point) -> real`. `Geometry.IsDistance`
  states what the model assumes of it: it is non-negative, symmetric, and zero from a point to
  itself.
- **Sentinel.** The sentinel `std::numeric_limits<double>::max()` becomes
  `ExtendedReals.Infinity`, which is above every real length and not below itself.
- **Spanning trees** (module `SpanningTrees`) are written rooted at node 0. Each other node has
  a parent and a rank, and a parent is either node 0 or a node of smaller rank. Every spanning
  tree can be written this way: give each node its depth as rank. More generally, a
  `Growth` attaches every node outside a base set to that set. This is what the correctness
  argument needs once Prim's tree holds the base.
- **Optimality proof.** The proof is the exchange argument. `SpanningTrees.Reroot` shows that
  any forest attaching everything to the current tree can be turned into one that attaches
  everything to the tree plus the newly chosen node. The new forest is lighter by at least the
  chosen edge, because that edge is a lightest one leaving the tree.
- **Empty input.** `BestStation` has no precondition on emptiness. With no stations it leaves
  `-1` and the sentinel, as the loop at src/main.cpp:97-110 does. The refusal at
  src/main.cpp:92-95 is `Run`'s `Err(NoSitesLoaded)`.

## Model

| member | source | states |
|---|---|---|
| `ExtendedReals.Min` | src/main.cpp:52 | `std::min` of two fringe values returns one of them, and neither of them is below the result (it is at most both) |
| `Prim.ScanFrom` | src/main.cpp:36-41 | after scanning indices below k, the candidate is either "none" (n) or an outside node below k whose fringe value is a real length |
| `Prim.ScanIsFirstMinimum` | src/main.cpp:33-41 | the scan over 0..k-1 reports "none" exactly when every outside node there is at the sentinel; otherwise its node has the least fringe value, and every outside node before it has a strictly larger value |
| `Prim.SelectIsFirstMinimum` | src/main.cpp:33-44 | a round's selection is "none" (u == n, which makes the loop break) exactly when every outside node is at the sentinel; otherwise it is the lowest-index outside node of least fringe value |
| `Prim.SelectCheapest` | src/main.cpp:33-41 | the scan loop computes the specification `Select`, and its result satisfies the same first-minimum characterization |
| `Prim.RelaxedIsMinimum` | src/main.cpp:49-54 | after relaxing from u, an outside node's fringe value has not increased, is at most its distance to u, and is either its old value or that distance |
| `Prim.RelaxFrom` | src/main.cpp:49-54 | the relaxation loop leaves exactly the fringe given by `Relaxed`: outside nodes take the minimum of the old value and the distance to u, and tree nodes are unchanged |
| `Prim.RelaxKeepsCut` | src/main.cpp:46-54 | if every outside node's fringe value is its distance to the nearest tree node, this still holds after an outside node joins the tree and the fringe is relaxed from it |
| `Prim.CountOutsideMark` | src/main.cpp:46 | marking a node that was outside makes exactly one fewer node outside the tree |
| `Prim.SelectWithCut` | src/main.cpp:33-44 | with correct fringe values and a non-empty tree, the scan finds no node only when every node is already in the tree: on a complete graph the loop never breaks early |
| `Prim.StartRound` | src/main.cpp:26-54 | from the initial state the first round selects node 0, at fringe value 0. Afterwards the tree is {0} and every other node's fringe value is its distance to node 0 |
| `Prim.SelectedIsLightest` | src/main.cpp:33-47 | the fringe value a round adds to `total` is no greater than any edge from a tree node to an outside node |
| `Prim.ProgressStep` | src/main.cpp:32-55 | each of the n rounds selects a node that was outside the tree, adds a non-negative amount to the total, and leaves one node fewer outside, with the fringe invariant kept |
| `Prim.RoundsAtMostGrowth` | src/main.cpp:32-55 | from any state with correct fringe values, what the remaining rounds add to `total` is at most the weight of any forest attaching the outside nodes to the tree |
| `Prim.RoundsIsGrowthWeight` | src/main.cpp:32-55 | from such a state with enough rounds left, what the remaining rounds add is exactly the weight of some forest attaching every outside node to the tree |
| `Prim.PrimLengthIsMinimal` | src/main.cpp:21-58 | the length `mst_length` returns is no greater than the weight of any spanning tree of the sites |
| `Prim.PrimLengthIsTreeWeight` | src/main.cpp:21-58 | for at least one site, the length `mst_length` returns is the weight of a spanning tree of the sites, so with `PrimLengthIsMinimal` it is the minimum spanning tree length |
| `Prim.MstLength` | src/main.cpp:21-58 | returns `PrimLength`, which is non-negative. It is 0 for fewer than two sites, and the method changes no caller-visible state (it has no `modifies`). For two or more sites every site ends up in the tree; for fewer, the ghost `inTree` is only labelled empty |
| `Selector.Sites` | src/main.cpp:102-103 | the sites for one candidate are all the platforms, unchanged and in order, followed by the station |
| `Selector.BestStation` | src/main.cpp:97-110 | the result is the lowest index of a station with the shortest tree, and `min_length` is that station's length. Index -1 and the sentinel remain exactly when there are no stations |
| `Selector.Run` | src/main.cpp:92-110 | fails with `NoSitesLoaded` exactly when platforms or stations are empty; otherwise it returns the first shortest station and its length |

## Left out

- Argument checking, opening the two files, and reading the coordinate pairs with `>>`
  (src/main.cpp:60-90): this is I/O. The point sequences are parameters.
- The process exit statuses 1 to 4 and the error messages on standard error: this is I/O. The
  empty-input refusal of src/main.cpp:92-95 is modelled as `Err(NoSitesLoaded)`.
- Printing the index and the length with three decimals (src/main.cpp:112-114): this is
  presentation.
- Floating-point arithmetic: the square root in `dist`, rounding in `total += min_edge[u]`,
  and `double` comparisons are not modelled; all lengths are exact reals. In particular, a distance that overflows to
  infinity or reaches the largest double would behave differently against the sentinel than the
  model's always-real lengths do.
- `Selector.BestStation`: the `static_cast<int>` of the station index is not modelled as
  32-bit. With more than 2³¹−1 stations the source's index would wrap; the model's index is an
  unbounded integer.
- `size_t` counters are unbounded naturals in the model. The source cannot reach their limits
  with point sets that fit in memory.
- `run_tests.py` runs the compiled program and compares its text output with expected files. It
  has no logic of its own to model.
