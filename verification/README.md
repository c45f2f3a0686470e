# Tree topology for gossip forwarding — a Dafny model

This project models `TreeTopology` from the FISCO-BCOS sync module
(`libsync/TreeTopology.cpp`). A node uses it to pick the peers it forwards a
block or transaction to. The ordered consensus node list is read as the
breadth-first array layout of a complete `m_treeWidth`-ary tree, with the
root at position 0. A member forwards downward to its children and upward to
its nearest reachable ancestor. A child that is not a reachable peer is
replaced by a search further down. A node that is not a member sends to the
root, or, if the root is unreachable, searches down from the root.

Layout:

- `tree_index.dfy` (module `TreeIndex`): the index arithmetic. It holds
  truncating division, child and parent positions, the ancestor relation,
  and the laws that relate them.
- `selection_spec.dfy` (module `SelectionSpec`): the node ID type, a
  `Snapshot` of the state one selection reads, and recursive functions that
  state what each search appends. `Descend` and `SlotsFrom` cover the
  downward search, `AscendFrom` and `ParentSelection` the upward one, and
  `Selection` the entry point.
- `selection_facts.dfy` (module `SelectionFacts`): lemmas about those
  functions. They cover soundness (including the stop at the first reachable
  node of each branch), completeness along a branch, the
  all-reachable case, the nearest-ancestor law, and two worked scenarios.
- `topology.dfy` (module `Topology`): the `TreeTopology` class. Its fields
  are the ones the original refreshes in place. Its methods follow the
  original's loops, early exits and recursion, and each method's `ensures`
  ties its result to the specification functions.

Modelling choices:

- A node ID (`h512`) is an abstract type with equality. `ZeroId` stands for
  a default-constructed ID.
- The reachable peer set is a `set`, and the node list is a `seq`.
- The shared output vector that the original appends to is passed in and
  returned: each selection method takes the list built so far and returns it
  extended.
- C++ `/` truncates toward zero, so `TruncDiv` writes that out. For the root,
  `ParentIndex(0, w)` is therefore 0 when `w >= 2`, and -1 when `w == 1`
  because (0 - 1) / 1 truncates to -1. In
  both cases the upward search from the root appends nothing.
- `GetNodeIdByIndex` requires a non-negative index, because the original
  checks only the upper bound. Verification shows that every caller meets
  this requirement.
- `m_childOffset` is added to the position of the unreachable child before the
  search recurses (libsync/TreeTopology.cpp:126). With a non-zero offset the
  fallback search can therefore leave that child's subtree, so
  `DescendComplete` is stated for offset 0 only.

## Model

| member | source | states |
|---|---|---|
| `TreeIndex.TruncDiv` | libsync/TreeTopology.cpp:134 | the quotient of C++ signed division: truncated toward zero, with the remainder bounds for both signs of the dividend |
| `TreeIndex.ChildIndex` | libsync/TreeTopology.cpp:85-88 | a child's position is strictly greater than its parent's |
| `TreeIndex.ParentIndex` | libsync/TreeTopology.cpp:132-135 | the parent of a non-root position lies in [0, position); the root's parent is 0, or -1 for width 1 |
| `TreeIndex.ParentOfChild` | libsync/TreeTopology.cpp:132-135 | for p >= 0 and slot in [0, width): the parent of child (p, slot) is p, and the child lies after p |
| `TreeIndex.ChildOfParent` | libsync/TreeTopology.cpp:85-88 | every non-root position is the child of its parent in slot (n - 1) % width, so no position is orphaned |
| `TreeIndex.ChildIndexInjective` | libsync/TreeTopology.cpp:85-88 | distinct (parent, slot) pairs give distinct child positions, so no position is shared |
| `TreeIndex.AncestorBefore` | libsync/TreeTopology.cpp:132-135 | an ancestor is a valid position that lies before its descendant |
| `TreeIndex.AncestorTransitive` | libsync/TreeTopology.cpp:132-135 | an ancestor of an ancestor is an ancestor |
| `TreeIndex.RootIsAncestorOfAll` | libsync/TreeTopology.cpp:132-135 | position 0 is an ancestor of every other position, so the tree spans the whole list |
| `SelectionFacts.DescendSound` | libsync/TreeTopology.cpp:98-129 | every node the downward search from p appends is a peer at a list position k in (p, endIndex]; with offset 0, k is a descendant of p and no node strictly between p and k is a reachable peer, so a reachable child is taken without searching below it |
| `SelectionFacts.SlotsSound` | libsync/TreeTopology.cpp:103-128 | the same guarantee, including the stop at the first reachable node on each branch, for the slot loop from any slot on |
| `SelectionFacts.AncestorsComparable` | libsync/TreeTopology.cpp:132-135 | two ancestors of one position are equal or one is an ancestor of the other: the parent steps from a position form a single chain |
| `SelectionFacts.NoneBetweenParentAndChild` | libsync/TreeTopology.cpp:132-135 | no position is strictly between a node and its child: every ancestor of the child is the parent or lies above it |
| `SelectionFacts.NotAncestorOfEarlier` | libsync/TreeTopology.cpp:132-135 | a position is never an ancestor of a position at or before it |
| `SelectionFacts.DescendNoPeers` | libsync/TreeTopology.cpp:98-129 | with an empty peer set the downward search appends nothing |
| `SelectionFacts.SlotsNoPeers` | libsync/TreeTopology.cpp:103-128 | with an empty peer set the slot loop appends nothing from any slot on |
| `SelectionFacts.ChildOnPath` | libsync/TreeTopology.cpp:132-135 | a proper descendant k of p has an ancestor-or-self whose parent is p |
| `SelectionFacts.SlotPartIncluded` | libsync/TreeTopology.cpp:103-128 | a slot whose child is within endIndex contributes everything it selects to the loop run from any earlier slot |
| `SelectionFacts.DescendComplete` | libsync/TreeTopology.cpp:98-129 | with offset 0 no branch is missed: a reachable descendant k of p whose ancestors strictly between p and k are all unreachable is appended; with `DescendSound` this fixes exactly which nodes the search appends |
| `SelectionFacts.SlotsAllPeers` | libsync/TreeTopology.cpp:103-122 | if every list member is a peer, the slot loop from slot i appends exactly the list slice of the in-range children from slot i on |
| `SelectionFacts.DescendAllPeers` | libsync/TreeTopology.cpp:103-122 | if every list member is a peer, the downward search from p appends exactly the in-range children p*w+1 .. p*w+w, in slot order, with no recursion |
| `SelectionFacts.AscendFromShape` | libsync/TreeTopology.cpp:156-172 | the upward walk from q appends nothing when no position on the path from q to the root is reachable; otherwise it appends exactly the node at the highest-numbered (nearest) reachable position on that path |
| `SelectionFacts.ParentSelectionNearest` | libsync/TreeTopology.cpp:146-173 | the upward search appends at most one node: nothing from position 0, nothing exactly when no ancestor is a reachable peer, and otherwise the node at the nearest reachable ancestor |
| `SelectionFacts.SelectionSound` | libsync/TreeTopology.cpp:175-202 | every target is a peer from the list at a position other than the local node's, so in a duplicate-free list a member never selects itself; a non-member with a reachable root gets exactly [root]; an empty peer set gives [] |
| `SelectionFacts.SelectionAllPeers` | libsync/TreeTopology.cpp:175-202 | if every list member is a peer, a member selects its in-range direct children followed by its direct parent, or no parent at the root |
| `SelectionFacts.ScenarioBelowB` | libsync/TreeTopology.cpp:98-129 | in the 7-node width-2 tree, D reachable and E not: the search below B appends [D] only |
| `SelectionFacts.TwoSlotsRecurseThenTake` | libsync/TreeTopology.cpp:103-128 | width 2, first child unreachable, second child reachable and in range: the search appends the search from the first child's restart position, then the second child |
| `SelectionFacts.ScenarioBelowA` | libsync/TreeTopology.cpp:98-129 | in the 7-node width-2 tree, B unreachable and C reachable: the search below A appends B's subtree result, then C |
| `SelectionFacts.ScenarioRootDescends` | libsync/TreeTopology.cpp:175-202 | list [A..G], width 2, local node A, peers {C, D}: the selection is [D, C] |
| `SelectionFacts.ScenarioAscendPastUnreachableParent` | libsync/TreeTopology.cpp:146-173 | list [A..G], width 2, local node D, peers {A}: B is skipped and the selection is [A] |
| `Topology.IndexOf` | libsync/TreeTopology.cpp:50-62 | -1 exactly when the ID is absent; otherwise a position holding the ID with no earlier occurrence |
| `Topology.TreeTopology.Snap` | libsync/TreeTopology.cpp:34-42 | the state `selectNodes` reads under its lock (line 177); in a valid state, as the refresh leaves it, startIndex is 0, endIndex is size - 1, and the local position lies in [-1, size) |
| `Topology.TreeTopology.UpdateConsensusNodeInfo` | libsync/TreeTopology.cpp:27-36 | a list equal to the stored one changes no field; otherwise the list is replaced, consIndex becomes the first occurrence of the local ID or -1, and the bounds become 0 and size - 1 |
| `Topology.TreeTopology.UpdateStartAndEndIndex` | libsync/TreeTopology.cpp:38-42 | startIndex is 0 and endIndex is size - 1, which is -1 for an empty list |
| `Topology.TreeTopology.GetNodeIndexByNodeId` | libsync/TreeTopology.cpp:50-62 | the early-exit linear search returns the first position of the ID, or -1 |
| `Topology.TreeTopology.GetNodeIdByIndex` | libsync/TreeTopology.cpp:70-82 | for a non-negative index: found exactly when the index is below the list size; then the ID is the list entry, and otherwise the passed-in ID comes back unchanged |
| `Topology.TreeTopology.RecursiveSelectChildNodes` | libsync/TreeTopology.cpp:98-129 | terminates, keeps the list built so far as a prefix, and appends exactly `SelectionSpec.Descend` of the current state from parentIndex |
| `Topology.TreeTopology.SelectParentNodes` | libsync/TreeTopology.cpp:146-173 | keeps the list built so far as a prefix and appends exactly `SelectionSpec.ParentSelection` of the current state from nodeIndex |
| `Topology.TreeTopology.SelectNodes` | libsync/TreeTopology.cpp:175-202 | returns exactly `SelectionSpec.Selection` of the current state and peer set |

## Left out

- The `Guard l(m_mutex)` lock in `selectNodes`, and all concurrency. Each
  method runs sequentially over one consistent state. The lock that the
  refresh path lacks is a concurrency concern and is not modelled.
- `TREE_LOG` tracing and the `.abridged()` ID formatting. They are logging
  only.
- `std::shared_ptr` ownership and aliasing of the node list, the peer set and
  the output vector. These are plain values here.
- The commented-out `randomSelect` call. It is dead code.
- The header `TreeTopology.h` is not part of this model. The constructor
  takes the local ID, the tree width (at least 1) and the child offset (at
  least 0) as parameters. It starts from the state that refreshing with an
  empty list would produce, rather than from the header's initial field
  values.
- 64-bit `ssize_t` wrap-around. Positions are unbounded integers. Every
  position computed stays between -1 and max(1, (size + offset) * width),
  where offset is the child offset. The 1 covers the first child position
  probed below the root of an empty list.
- Uniqueness of node IDs in the list. The original does not enforce it, and
  the model does not assume it. Only the "never selects itself" clause of
  `SelectionSound` uses it, as a hypothesis.
- DescendComplete: stated for child offset 0 only. With a positive offset the
  original continues the search from a position past the unreachable child,
  which can lie outside that child's subtree, so there is no per-branch
  completeness to state.
