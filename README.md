# ophois road-graph simplification, modelled in Dafny

ophois turns an OpenStreetMap road network into a simple undirected graph
and then rewrites that graph. Its core is a mutable graph store plus the
rewriting passes that run on it:

- **The store** (`Graph`). A node table maps an id to a node: its
  coordinate text and an ordered neighbour list. A link table maps each
  directed link `(source, target)` to the slot of `target` in the source's
  neighbour list. `insert_link` appends to the list. `remove_link` deletes
  in constant time by swap-remove and re-points the entry of the neighbour
  that moved. `remove_node` unlinks every neighbour in both directions.
  `_from` builds a graph from text records.
- **The heuristics**:
  - extracting the largest connected component by breadth-first search;
  - splicing a node out by linking all pairs of its neighbours, used by
    the degree-two pass and the short-neighbourhood pass;
  - contracting a short link into one node with a canonical id, repeated
    until no short link is left.
- **The discretizer** (`discretize`). It replaces each long link by a chain
  of evenly spaced synthetic nodes named `"{a}-{b}:{i}/{part}"`.
- **The record loader and the metrics** (`load_graph`, `count_nodes`,
  `count_links`, `degree_distribution`, `substitute_nodes_distribution`).
  They work on a `(nodes, canonical link set)` pair.

## How the model is built

- **A class in place of the store.** The store is the class
  `Graphs.Graph`, whose `nodes` and `links` map fields the methods update
  in place. The function `State()` views the class as a value
  `Stores.Store`. Each method's `ensures` ties the new state to a function
  of the old one in module `Stores`: `WithNode`, `WithLink`,
  `WithoutLink`, `WithoutNode`.
- **Unwraps as preconditions.** At the store level, every `unwrap` or
  slice index of the original becomes a precondition.
- **Panics as `None`.** The passes are methods with the same loops as the
  original. Each is proved equal to a function on store values:
  - `Splicing.Splice`, `Splicing.RemoveDegreeTwo`,
    `Splicing.RemoveUnderDeltaNodes`;
  - `Contraction.Contract`, `Rounds.Sweep`;
  - `Discretizer.SubdivideAll`.

  These functions return `None` exactly where the original panics, apart
  from the coordinate-parsing panics left out below, so the methods
  require them to be `Some`. The rebuilt component of
  `bfs_largest_component` cannot fail. It is described by the predicate
  `Components.Rebuilt`.
- **Well-formed graphs.** Lemmas then state what the passes do on a
  well-formed graph, `Stores.Wf`:
  - the index invariant holds;
  - every neighbour slot has its link entry;
  - every link is present in both directions;
  - there are no self-loops;
  - every node is stored under its own id.
- **Geometry is abstract.** It is a `Geo.Geometry` value:
  - `dist` stands for `haversine_distance`;
  - `mid` stands for `midpoint`;
  - `between` stands for `get_point_from_line`.

  Every property is proved for any such functions.
- **Orders are parameters.** Shuffles and hash-map iteration orders are
  `order` parameters that enumerate the table being walked, or choices
  made with `:|`.
- **Files.** The modules follow the source files:

  | file | module | models |
  |---|---|---|
  | `wrappers.dfy` | `Wrappers` | the `Option` type |
  | `strings.dfy` | `Strings` | string order, decimal, split, sort and dedup helpers |
  | `utils.dfy` | `Utils` | src/utils.rs |
  | `geo.dfy` | `Geo` | the abstract geometry |
  | `store.dfy` | `Stores` | the value view of src/graph.rs, with its invariants |
  | `graph.dfy` | `Graphs` | the class and `_from` |
  | `components.dfy` | `Components` | reachability and the rebuilt component |
  | `splice.dfy` | `Splicing` | node splicing |
  | `contract.dfy` | `Contraction` | link contraction |
  | `rounds.dfy` | `Rounds` | the rounds of `remove_under_delta_links` |
  | `heuristics.dfy` | `Heuristics` | the methods of src/heuristics.rs |
  | `discretize.dfy` | `Discretizer` | the discretizer and its methods |
  | `chain.dfy` | `Chains` | what one subdivision does |
  | `metrics.dfy` | `Metrics` | src/metrics.rs |

## Model

| member | source | states |
|---|---|---|
| Utils.DeterministicLink | src/utils.rs:30-37 | the pair holds exactly the two ids, and the first is not greater than the second in Rust's string order |
| Utils.DeterministicLinkSymmetric | src/utils.rs:30-37 | both orientations of a pair give the same canonical pair |
| Utils.DeterministicLinkIdempotent | src/utils.rs:31-36 | applied to its own result it returns that result |
| Strings.LessIrreflexive | src/utils.rs:31 | no string is less than itself in lexicographic order |
| Strings.LessAsymmetric | src/utils.rs:31 | of two strings at most one is less than the other |
| Strings.LessTransitive | src/utils.rs:31 | lexicographic order is transitive |
| Strings.LessTotal | src/utils.rs:31 | two different strings are always ordered one way |
| Utils.LoadGraph | src/utils.rs:39-71 | the record loop returns the fold of the per-record rule over the lines, `None` exactly where the original panics |
| Utils.LoadSucceedsIff | src/utils.rs:47-67 | loading succeeds iff every record has three fields, or two fields naming different ids |
| Utils.LoadRecordStep | src/utils.rs:47-66 | a node record adds its id (unless present), a link record adds its canonical pair, and nodes stay keyed by id |
| Utils.LoadRecordNeighbours | src/utils.rs:51-56 | a link record appends the other endpoint to a declared endpoint, and leaves everything else of that node as it was |
| Utils.LoadResult | src/utils.rs:39-71 | after loading, the node ids are the declared ids, and the link set is the canonical pairs of all link records, including those naming undeclared ids |
| Utils.LoadFirstDeclarationWins | src/utils.rs:51-65 | the first record declaring an id fixes its latitude (field 1) and longitude (field 2); its list holds the other endpoint of each later link record mentioning it, in order |
| Utils.LoadPrefixFails | src/utils.rs:67 | once a record makes the loader fail, the whole input fails |
| Graphs.Graph.constructor | src/graph.rs:40-45 | the new graph has no nodes and no links |
| Graphs.Graph.InsertNode | src/graph.rs:119-121 | the new state is the old one with the node added unless its id is present, and the index invariant is kept |
| Graphs.InsertNodeEffect | src/graph.rs:119-121 | a present id leaves the graph unchanged; otherwise exactly one entry is added and no other node or link changes |
| Graphs.Graph.GetNode | src/graph.rs:134-136 | requires the id to be present and returns the record stored under it, whose id is that id when nodes are keyed by id |
| Graphs.Graph.InsertLink | src/graph.rs:138-144 | requires the source node; the new state appends the target and records its slot, and the index invariant is kept |
| Graphs.InsertLinkEffect | src/graph.rs:138-144 | the target becomes the last neighbour of the source, the entry is the old list length, and no other node or entry changes |
| Stores.InsertLinkKeepsIndex | src/graph.rs:138-144 | `insert_link` keeps the index invariant |
| Graphs.InsertLinkScenario | src/graph.rs:184-204 | in the test graph `u - v - w`, `(u, v)` sits in slot 0 and `(v, w)` in slot 1, and `v` lists `u` then `w` |
| Graphs.PathUVWWf | src/graph.rs:184-204 | the test graph is well formed |
| Graphs.PathUVWShape | src/graph.rs:184-204 | the test graph has exactly the nodes `u`, `v`, `w` and the four link entries |
| Stores.SwapRemove | src/graph.rs:151-155 | `swap_remove(k)` shortens the list by one, keeps every other slot and moves the last element into slot `k` |
| Graphs.Graph.RemoveLink | src/graph.rs:146-159 | requires the entry and a slot in range; the new state is the swap-remove with the moved neighbour re-pointed, and the index invariant is kept |
| Stores.RemoveLinkKeepsIndex | src/graph.rs:146-159 | on a graph with the index invariant, `remove_link` of a present entry does not abort and keeps the invariant |
| Stores.RemoveLinkFrame | src/graph.rs:146-159 | only the source's list changes; an entry whose source is not `s` is kept with its slot; the only entry that can be added or re-pointed is the one for the moved neighbour, which then points to slot `k` |
| Stores.RemoveLastSlot | src/graph.rs:151-152 | removing the last slot deletes that entry and rewrites no other |
| Stores.RemoveLinkLists | src/graph.rs:146-159 | on a graph whose slots are all linked, the source's list loses exactly the target and one element, and every other node is unchanged |
| Graphs.Graph.RemoveNode | src/graph.rs:123-132 | the new state is the node's neighbours unlinked in both directions followed by the node dropped, and well-formedness is kept |
| Stores.UnlinkPairWf | src/graph.rs:126-129 | unlinking a present edge in both directions does not abort, removes exactly those two entries and keeps the graph well formed |
| Stores.UnlinkPairLists | src/graph.rs:126-129 | unlinking an edge removes each endpoint from the other's list, shortening each list by one, and changes no other node |
| Stores.DetachAllWf | src/graph.rs:125-130 | the unlinking loop over a copy of the list completes, empties the node's list, drops exactly the entries that mention the node, and keeps the graph well formed |
| Stores.RemoveNodeWf | src/graph.rs:123-132 | on a well-formed graph, `remove_node` does not abort; the node is gone, no link mentions it, and the graph stays well formed |
| Stores.RemoveNodeLists | src/graph.rs:123-132 | every other node keeps its record, except that its list no longer contains the removed node and is shorter by one exactly when it did |
| Stores.RemoveNodeKeys | src/graph.rs:123-132 | `remove_node` removes exactly that id from the node table |
| Stores.RemoveIsolatedNode | src/graph.rs:123-132 | a node without neighbours is removed without touching the link table |
| Stores.RemoveAbsentNode | src/graph.rs:124 | `remove_node` of an absent id aborts |
| Graphs.RemoveNodeScenario | src/graph.rs:215-237 | removing `v` from `u - v - w` leaves `u` and `w` without neighbours and no links |
| Stores.InsertNodeKeepsWf | src/graph.rs:119-121 | inserting a fresh node without neighbours keeps the graph well formed |
| Stores.LinkPairWf | src/graph.rs:138-144 | linking two distinct unlinked nodes in both directions adds exactly those two entries and keeps the graph well formed |
| Stores.LinkPairLists | src/graph.rs:138-144 | linking two nodes both ways appends each to the other's list, and keeps every other node and every existing entry |
| Stores.ListedIffLinked | src/graph.rs:138-159 | under the store's invariants a node lists a neighbour iff the link entry exists |
| Stores.NeighbourSymmetric | src/graph.rs:138-159 | in a well-formed graph `u` lists `x` iff `x` lists `u` |
| Stores.NeighboursPresent | src/graph.rs:138-159 | in a well-formed graph every neighbour is a node and no node lists itself |
| Stores.IsolatedUnlinked | src/graph.rs:123-132 | a node without neighbours occurs in no link and in no neighbour list |
| Graphs.Graph.InsertRecord | src/graph.rs:51-68 | `ok` is false exactly where one record makes `_from` panic; otherwise the new state is that record's effect |
| Graphs.Graph.From | src/graph.rs:47-71 | the loop over the lines returns the fold of the record rule, and succeeds exactly when that fold does |
| Graphs.FromSucceedsIff | src/graph.rs:51-69 | `_from` succeeds iff each record has three fields, or has two fields naming ids declared on earlier lines |
| Graphs.FromStep | src/graph.rs:51-69 | on a prefix that succeeds, the last record decides success |
| Graphs.FromPrefixFails | src/graph.rs:64-67 | a failing record makes the whole parse fail |
| Graphs.FromKeys | src/graph.rs:47-71 | a successful parse declares exactly the ids of the node records, and links both directions of every link record |
| Graphs.FromRecordKeeps | src/graph.rs:51-63 | one record keeps the index invariant, symmetry and nodes keyed by id |
| Graphs.FromInvariants | src/graph.rs:47-71 | a parsed graph satisfies the index invariant, links every pair both ways and keys every node by its id |
| Graphs.FromLinkRecord | src/graph.rs:60-63 | every link record ends up linked in both directions |
| Graphs.FromRecordNeighbours | src/graph.rs:51-63 | a record leaves a declared node unchanged except for the neighbours a link record appends |
| Graphs.FromFirstDeclarationWins | src/graph.rs:51-63 | the first declaration fixes a node's latitude (field 1) and longitude (field 2), and its list holds the other ends of the later link records, in order |
| Heuristics.BfsLargestComponent | src/heuristics.rs:10-58 | returns a fresh graph: a subgraph of the input, empty only for an empty input, reachable from one root, closed and as large as every component on an undirected input, holding its nodes' lists cut to the component and exactly the links inside it; it is well formed when the input is |
| Heuristics.LargestComponent | src/heuristics.rs:16-48 | the nodes kept by the search loop, with emptied lists: reachable from one root and, on an undirected graph, a whole component at least as large as every other |
| Heuristics.SurveyNode | src/heuristics.rs:17-47 | one turn visits the node and keeps the survey invariant: the visited set is closed under neighbours, the best nodes are reachable from one root, and on an undirected graph the best is a closed set at least as large as the component of every visited node |
| Heuristics.Explore | src/heuristics.rs:18-40 | one breadth-first search returns, with emptied lists, the records of nodes reachable from the start that were not visited before; it adds them to the visited set, which then holds all their neighbours |
| Heuristics.PushNeighbours | src/heuristics.rs:34-39 | each neighbour not yet visited is marked visited and queued once, after the old queue, which is kept |
| Components.ComponentIs | src/heuristics.rs:22-40 | a closed set of nodes all reachable from a root is the root's component |
| Components.SameComponent | src/heuristics.rs:16-21 | on an undirected graph every member of a component has that same component |
| Components.ReachesSymmetric | src/heuristics.rs:34-39 | on an undirected graph reachability is symmetric |
| Components.ClosedReaches | src/heuristics.rs:34-39 | whatever a member of a closed set reaches is in the set |
| Components.SurveyDone | src/heuristics.rs:16-48 | after all nodes are visited, the best component is empty only for an empty graph, and on an undirected graph no component is larger |
| Components.FromRecordListsLinked | src/graph.rs:60-63 | a link record pushes each end onto the other's list together with its entry, so every listed neighbour stays linked |
| Components.FromListsLinked | src/graph.rs:47-71 | in a graph `_from` builds, every listed neighbour has its link entry |
| Components.FromUndirected | src/graph.rs:47-71 | every graph `_from` builds has neighbour lists that agree in both directions and name declared nodes, the hypothesis of the size bounds of `bfs_largest_component` |
| Heuristics.Rebuild | src/heuristics.rs:49-56 | the new graph holds the kept records, each list cut to the kept nodes, exactly the links between kept nodes, and the index invariant |
| Heuristics.RebuildRow | src/heuristics.rs:50-55 | one kept node is linked to each former neighbour that is kept, in list order |
| Components.Keep | src/heuristics.rs:51-55 | the filtered list holds exactly the listed ids that are kept |
| Components.RebuiltWf | src/heuristics.rs:49-56 | the component rebuilt from a well-formed graph is well formed |
| Components.RebuiltSymmetric | src/heuristics.rs:49-56 | the rebuilt component links every pair both ways and has no self-loop |
| Components.RebuiltSlots | src/heuristics.rs:49-56 | every slot of a rebuilt list has its link entry |
| Heuristics.ReplaceNodeByLinks | src/heuristics.rs:60-78 | the new state is the node removed, followed by each pair of its former neighbours linked both ways when neither direction existed |
| Heuristics.LinkRowPass | src/heuristics.rs:64-75 | the inner loop links neighbour `i` with each later neighbour, unless a direction already exists |
| Splicing.LinkIfAbsentWf | src/heuristics.rs:65-74 | on a well-formed graph one turn leaves the pair linked both ways and the graph well formed |
| Splicing.LinkIfAbsentKeeps | src/heuristics.rs:65-74 | one turn keeps every existing entry and every node except for appended neighbours |
| Splicing.AllPairsSpec | src/heuristics.rs:63-64 | the double loop visits exactly the pairs of list positions `p < q`, in both orientations |
| Splicing.AllPairsAmong | src/heuristics.rs:63-64 | on a list without repeats those are exactly the pairs of distinct listed ids |
| Splicing.SpliceWf | src/heuristics.rs:60-78 | on a well-formed graph splicing does not abort; it removes exactly the node, and a link exists afterwards iff it existed without the node or joins two former neighbours; the graph stays well formed |
| Splicing.SpliceKeeps | src/heuristics.rs:60-78 | splicing keeps every entry and node record left after the removal, except for appended neighbours |
| Splicing.SpliceRecords | src/heuristics.rs:60-78 | every remaining node keeps its id and coordinates |
| Splicing.SpliceNeighbours | src/heuristics.rs:60-78 | another node lists `v` afterwards iff it listed `v` before and `v` is not the spliced node, or both are former neighbours of it |
| Heuristics.RemoveDegreeTwoNodes | src/heuristics.rs:80-91 | returns the nodes that had two neighbours when the table was snapshotted, and splices them out in that order |
| Splicing.SpliceAllWf | src/heuristics.rs:87-89 | splicing out distinct nodes of a well-formed graph does not abort, removes exactly those nodes and keeps the graph well formed |
| Splicing.RemoveDegreeTwoWf | src/heuristics.rs:80-91 | on a well-formed graph the pass keeps exactly the nodes that did not have two neighbours at the start, and the graph stays well formed |
| Heuristics.RemoveUnderDeltaNodesPass | src/heuristics.rs:93-112 | visiting the nodes in the given order splices out each one with no neighbour farther than `delta`, stopping the scan at the first far one |
| Splicing.VisitNodeWf | src/heuristics.rs:96-110 | on a well-formed graph one visit does not abort, deletes only the visited node and only when no neighbour is farther than `delta`, and keeps the graph well formed |
| Splicing.IsolatedRemoved | src/heuristics.rs:96-110 | a node without neighbours is always removed, and no link changes |
| Splicing.RemoveUnderDeltaNodesWf | src/heuristics.rs:93-112 | on a well-formed graph the pass completes, deletes only visited nodes and keeps the graph well formed |
| Splicing.LookableWf | src/heuristics.rs:99-100 | the neighbour lookups of a visit succeed when the neighbours are all nodes |
| Heuristics.ReplaceLinkByNode | src/heuristics.rs:114-141 | the new state is both end nodes removed, the contracted node inserted at the midpoint, and that node linked both ways to each merged neighbour |
| Contraction.ContractedId | src/heuristics.rs:123-128 | the contracted id is the two ids joined by one dash |
| Contraction.ContractedIdSymmetric | src/heuristics.rs:123-128 | the contracted id does not depend on the orientation of the link |
| Contraction.ContractedIdExample | src/heuristics.rs:276-291 | contracting `92192237` with `3761637489`, either way round, gives `3761637489-92192237` |
| Contraction.ContractedPieces | src/heuristics.rs:128 | the pieces of the contracted id are the pieces of both ids |
| Contraction.ContractedIdFresh | src/heuristics.rs:128-135 | when the ids' pieces never overlap, the contracted id is new and the pieces stay disjoint |
| Contraction.MergedElems | src/heuristics.rs:119-122 | the merged list holds exactly the neighbours of either end, minus the two ends, all of them nodes |
| Strings.SortSorted | src/heuristics.rs:120 | sorting gives a sorted permutation |
| Strings.DedupSorted | src/heuristics.rs:121 | dedup of a sorted list is strictly sorted with the same elements |
| Strings.Without | src/heuristics.rs:122 | `retain` drops exactly the two end ids |
| Strings.WithoutSorted | src/heuristics.rs:122 | `retain` keeps a strictly sorted list strictly sorted |
| Strings.NormalizedSpec | src/heuristics.rs:119-122 | the sort, dedup and retain steps give a strictly sorted list of the elements minus the two ids |
| Strings.StrictlySortedUnique | src/heuristics.rs:119-122 | two strictly sorted lists with the same elements are equal |
| Contraction.MergedSymmetric | src/heuristics.rs:119-122 | the merged list does not depend on the orientation of the link |
| Contraction.ContractWf | src/heuristics.rs:114-141 | on a well-formed graph with a fresh contracted id, contraction does not abort; it replaces the two ends by the new node, drops the node count by one and keeps the graph well formed |
| Contraction.ContractNode | src/heuristics.rs:128-139 | the new node has the contracted id, the midpoint coordinates and the merged list as its neighbours |
| Contraction.ContractLinks | src/heuristics.rs:136-139 | the links afterwards are those that avoid both ends, plus both directions between the new node and each merged neighbour |
| Contraction.ContractLinked | src/heuristics.rs:114-141 | a link exists afterwards iff it existed away from both ends, or joins the new node and a merged neighbour |
| Contraction.ContractListed | src/heuristics.rs:114-141 | after contraction another node lists a neighbour iff the link entry exists |
| Contraction.ContractNeighbours | src/heuristics.rs:114-141 | another node lists `v` afterwards iff it listed `v` before and `v` is neither end, or `v` is the new node and it listed an end |
| Contraction.ContractRecords | src/heuristics.rs:114-141 | every other node keeps its id and coordinates |
| Contraction.ContractOrientation | src/heuristics.rs:114-141 | contracting a link from either end gives the same node ids and the same neighbours for the new node |
| Contraction.ContractShrinks | src/heuristics.rs:114-141 | every completed contraction lowers the node count |
| Heuristics.RemoveUnderDeltaLinks | src/heuristics.rs:143-169 | when settled, no link is short; the node count never grows; on a well-formed graph whose ids share no piece it always settles, keeps the graph well formed and keeps every original id represented; a stuck end has a short link without its reverse, and every later round would change nothing |
| Heuristics.EnumerateLinks | src/heuristics.rs:146-147 | the snapshot lists every link once |
| Heuristics.SweepPass | src/heuristics.rs:148-157 | `swept` is false exactly where the sweep panics; otherwise the new state is the sweep's result, with no more nodes |
| Heuristics.CheckPass | src/heuristics.rs:158-166 | `checked` is false exactly where a lookup would panic; otherwise `below` says whether some link is shorter than `delta` |
| Rounds.VisitShrinks | src/heuristics.rs:149-155 | a turn never adds a node, and a turn that keeps the node count changes nothing |
| Rounds.SweepShrinks | src/heuristics.rs:148-157 | a sweep never adds a node, and a sweep that keeps the node count changes nothing |
| Rounds.VisitShort | src/heuristics.rs:149-155 | a short link is contracted when visited, unless its reverse is missing |
| Rounds.SweepFixed | src/heuristics.rs:148-157 | in a sweep that changes nothing, every turn changes nothing |
| Rounds.FixedSweep | src/heuristics.rs:148-157 | a sweep made only of turns that change nothing changes nothing |
| Rounds.StuckForever | src/heuristics.rs:144-167 | a round that changes nothing changes nothing in any order of the next round, so the loop never ends |
| Rounds.StuckAsymmetric | src/heuristics.rs:149 | a round that changes nothing while a short link is left needs a link without its reverse |
| Rounds.AllPiecesReplace | src/heuristics.rs:128 | replacing two ids by their contracted id keeps the set of original ids represented |
| Rounds.WfCheckable | src/heuristics.rs:159-162 | in a well-formed graph the check's lookups all succeed |
| Rounds.VisitWf | src/heuristics.rs:148-156 | on a well-formed graph whose ids share no piece, a turn completes and keeps the graph well formed, the pieces disjoint and every original id represented |
| Rounds.SweepWf | src/heuristics.rs:148-157 | the same for a whole sweep in any order |
| Discretizer.Parts | src/discretize.rs:12 | the cast gives a `u32`, which is the floor of the quotient when the quotient is in range |
| Discretizer.PartsSplits | src/discretize.rs:12-13 | with a positive `delta`, a link is split iff it is at least twice `delta` long |
| Strings.NatToString | src/discretize.rs:25 | the decimal text of a number is a non-empty string of digits |
| Strings.DecimalRoundTrip | src/discretize.rs:25 | reading back the decimal text gives the number |
| Strings.NatToStringInjective | src/discretize.rs:25 | different numbers have different decimal texts |
| Chains.ChainIdSpelled | src/discretize.rs:25 | the synthetic id is `a-b:i/part` spelled out |
| Chains.ChainIdInjective | src/discretize.rs:25 | different positions give different synthetic ids |
| Discretizer.Discretize | src/discretize.rs:5-52 | walking the snapshot in the given order, the new state is the fold of the per-link turn |
| Discretizer.SubdivideLink | src/discretize.rs:8-48 | one turn: a link present both ways and split into more than one piece is unlinked both ways and replaced by the chain |
| Discretizer.InsertChainNodes | src/discretize.rs:16-32 | inserts synthetic nodes `1 .. part - 1` and returns their ids `a-b:j/part`, in order |
| Discretizer.LinkChainNodes | src/discretize.rs:33-47 | the second loop links the chain turn by turn |
| Discretizer.LinkTurn | src/discretize.rs:34-46 | one turn links the node to its predecessor and successor; the first node is also linked from the source and the last from the target |
| Chains.Path | src/discretize.rs:17-47 | the path through the chain has `part + 1` nodes |
| Chains.PathDistinct | src/discretize.rs:17-47 | the path runs from source to target through distinct nodes, with `part` pieces |
| Chains.SubdivideIsChain | src/discretize.rs:14-47 | a split link is unlinked both ways, and then both inner loops run |
| Chains.SubdivideKeepsWf | src/discretize.rs:8-47 | on a well-formed graph a split with unused ids completes and keeps the graph well formed |
| Chains.SubdivideShape | src/discretize.rs:14-47 | the nodes afterwards are the old ones plus the path's; the links are the old ones minus both directions of the split link, plus both directions along the path; so the node count grows by `part - 1` and the link count by `2 * (part - 1)` |
| Chains.SubdivideChainNodes | src/discretize.rs:17-47 | synthetic node `i` has id `a-b:i/part`, the interpolated coordinates and exactly the neighbours `c[i-1]` and `c[i+1]` |
| Chains.SubdivideEnds | src/discretize.rs:14-15 | each end node keeps its record and degree: it loses the other end and gains the adjacent chain node; every other node is unchanged |
| Chains.SubdivideOnce | src/discretize.rs:6-8 | after a split neither direction of the link is present, so a later turn for either direction changes nothing |
| Chains.PathLinksShape | src/discretize.rs:33-47 | the chain's links come in both directions, have no self-loop, and do not join source and target |
| Chains.ChainLinksComplete | src/discretize.rs:33-47 | after the last turn the links added are exactly both directions along the path |
| Chains.SubdivideWf | src/discretize.rs:8-48 | on a well-formed graph a turn whose ids are unused completes and keeps the graph well formed |
| Chains.SubdivideAllWf | src/discretize.rs:5-52 | on a well-formed graph, a pass whose every turn finds its ids unused completes and keeps the graph well formed |
| Chains.SubdivideGrowth | src/discretize.rs:8-48 | on a well-formed graph, a turn whose ids are unused adds `part - 1` nodes for a link it splits and none otherwise, two directed links per added node, and leaves the graph unchanged exactly when it adds none |
| Chains.SubdivideAllGrowth | src/discretize.rs:5-52 | on a well-formed graph, a pass whose every turn finds its ids unused adds `part - 1` nodes for each link it splits, and one more undirected link (two directed entries) per added node: the growth the test checks, 7 to 35 nodes and 8 to 36 links |
| Metrics.AsU32 | src/metrics.rs:13 | `as u32` keeps the low 32 bits: below 2^32, and equal to the number when it fits |
| Metrics.CountNodes | src/metrics.rs:12-14 | the node count as a `u32`, exact below 2^32 |
| Metrics.CountLinks | src/metrics.rs:16-18 | the link count as a `u32`, exact below 2^32 |
| Metrics.Degree | src/metrics.rs:24-28 | a node's degree is at most the length of its list |
| Metrics.DegreeFull | src/metrics.rs:24-28 | the degree is the full list length iff every neighbour's canonical pair is a link |
| Metrics.NodeDegree | src/metrics.rs:23-28 | the inner loop counts the neighbours whose canonical pair is a link |
| Metrics.DegreeDistribution | src/metrics.rs:20-33 | every node's degree has an entry, each entry counts exactly the nodes with that degree, and the counts sum to the number of nodes |
| Metrics.DegreeHistogram | src/metrics.rs:20-33 | the degree tally along any walk of the node table is the degree histogram |
| Metrics.TallyCounts | src/metrics.rs:29-30 | a tally has an entry for exactly the values seen, each counting how often it occurs |
| Metrics.TotalTally | src/metrics.rs:29-30 | the counts of a tally sum to the number of values |
| Metrics.HistogramOf | src/metrics.rs:50-58 | the tally of the values along a walk counts, for each value, the keys with it, and its counts sum to the number of keys |
| Metrics.Substitute | src/metrics.rs:53-54 | a node stands for at least one original node |
| Strings.SplitJoin | src/metrics.rs:53 | joining the dash-split pieces gives back the id, and no piece contains a dash |
| Strings.SplitCount | src/metrics.rs:53 | splitting gives one piece more than there are separators |
| Metrics.SubstituteDashes | src/metrics.rs:53-54 | the substitute value is one more than the number of dashes in the id |
| Metrics.SubstituteContracted | src/metrics.rs:53-54 | a contracted id stands for as many nodes as its two ids together |
| Metrics.SubstitutePlain | src/metrics.rs:53-54 | an id without a dash stands for one node |
| Metrics.SubstituteMerged | src/metrics.rs:53-54 | the contracted id of two plain ids stands for two nodes |
| Metrics.SubstituteNodesDistribution | src/metrics.rs:50-59 | every node's substitute value has an entry, each entry counts exactly the nodes with that value, and the counts sum to the number of nodes |

## Left out

- Floating-point geometry.
  - `haversine_distance`, `midpoint` and `get_point_from_line` are the
    arbitrary functions of `Geo.Geometry`.
  - Parsing coordinate text into floats is not modelled, and neither is
    the panic on text that does not parse.
  - `links_length_distribution` is left out because it depends only on
    those floats.
- Discretizer.Parts: computes the floor of the exact quotient, not of the
  32-bit float quotient the original casts.
- Randomness: the shuffles of `remove_under_delta_nodes` and
  `remove_under_delta_links` become `order` parameters that enumerate the
  table. Hash-map iteration orders are treated the same way, or chosen
  with `:|`.
- Input and output are left out:
  - `Graph::load` and `Graph::show`;
  - reading standard input in `load_graph`, including the `unwrap` of
    each line;
  - `print_graph`, `distribution_to_file` and `metrics`.

  `_from` and `load_graph` take the lines already split off their input.
- src/openstreetmap.rs, src/overpass.rs and src/main.rs are not part of
  this model. They are XML reformatting, a network download and
  command-line wiring.
- The `distribution` histogram of `bfs_largest_component` is left out. It
  is computed but never returned.
- `contains_link` and `determinist` are not part of this model. They are
  read as membership in the link table and as `deterministic_link`.
- Heuristics.BfsLargestComponent: does not state that on a tie the first
  component in `order` wins. The strict `>` itself is modelled in
  `Heuristics.SurveyNode`.
  - Closedness and the bound "at least as large as every other component"
    hold only on an undirected input.
  - Every graph `_from` builds is undirected (`Components.FromUndirected`).
  - So is every well-formed graph (`Components.WfUndirected`).
  - On other input the contract says nothing about size.
- Heuristics.LargestComponent: does not state that on a tie the first
  component in `order` wins either. Closedness and the size bound are also
  stated only on an undirected input.
- Test fixtures are not replayed:
  - the 18-node component of the BFS test;
  - the degree-four star of the `replace_node_by_links` test;
  - the degree-two test;
  - the contraction tests, apart from the expected id;
  - the 35-node result of the `discretize` test.

  Their outcomes depend on haversine distances or on dozens of records.
  The general lemmas state the properties those tests check.
- Chains.SubdivideAllWf: proved only when every synthetic id a turn needs
  is unused.
  - The original does not check this.
  - On a clash, `insert_node` keeps the old node and the chain is linked
    to it.
- Rounds.SweepWf: proved only when no two ids share a dash-separated
  piece, as with the numeric ids of a freshly loaded graph.
  - Otherwise two contractions can produce the same id: `a-b` with `c`,
    and `a` with `b-c`, both give `a-b-c`.
- Heuristics.RemoveUnderDeltaLinks: also returns `Aborted` where the
  original panics, and `Stuck` where it would repeat the same round
  forever. The original never returns in either case.
- Contraction.ContractOrientation: does not state that the coordinates
  agree. `midpoint` is applied to the two ends in the order of the link,
  and the abstract `mid` need not be symmetric.
- Metrics.DegreeDistribution: degree keys and counts are unbounded
  naturals. The original's `u32` counters differ only beyond 2^32 nodes or
  neighbours.
- Metrics.SubstituteNodesDistribution: substitute values are not reduced
  to `u32`. They differ only for ids with 2^32 or more dashes.
- Heuristics.SurveyNode: the `u32` counters `component_size` and
  `largest_component_size` are unbounded naturals.
  - Heuristics.Explore is modelled the same way.
  - They differ only for components of 2^32 or more nodes.
- Strings.Less: compares characters by code point; Rust compares the
  UTF-8 bytes. The two orders coincide.
