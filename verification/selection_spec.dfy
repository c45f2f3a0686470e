/**
 * Specification of peer selection over the implicit tree: pure recursive
 * functions that say which node IDs the downward search, the upward search
 * and the combined selection append, evaluated over one consistent snapshot
 * of the topology state.
 */
module SelectionSpec {
  import opened TreeIndex

  /** A node ID (a 512-bit public key in the original). Only equality is used. */
  type NodeId(==, 0)

  /** The value of a default-constructed, all-zero node ID. */
  const ZeroId: NodeId

  /** The topology state and tree parameters one selection call reads. */
  datatype Snapshot = Snapshot(
    nodes: seq<NodeId>,  // the consensus node list, in tree order
    consIndex: int,      // position of the local node, -1 if it is not a member
    startIndex: int,
    endIndex: int,
    width: int,          // branching factor of the tree
    offset: int)         // extra positions skipped when descending past an unreachable child

  /** What the recursion needs to terminate and to index safely. */
  predicate Sane(s: Snapshot) {
    s.width >= 1 && s.offset >= 0 && s.startIndex >= 0
  }

  /** The shape a refresh of the topology state establishes. */
  predicate WellShaped(s: Snapshot) {
    Sane(s) && s.startIndex == 0 && s.endIndex == |s.nodes| - 1 && -1 <= s.consIndex < |s.nodes|
  }

  /** Termination measure of the downward search: positions left up to endIndex. */
  function Budget(s: Snapshot, parent: int): nat {
    if parent <= s.endIndex then s.endIndex - parent + 1 else 0
  }

  /** The node at position k is a reachable peer. */
  predicate ReachableAt(s: Snapshot, peers: set<NodeId>, k: int) {
    0 <= k < |s.nodes| && s.nodes[k] in peers
  }

  // ---------------------------------------------------------------------
  // Downward search
  // ---------------------------------------------------------------------

  /** What the downward search from `parent` appends. */
  function Descend(s: Snapshot, peers: set<NodeId>, parent: int): seq<NodeId>
    requires Sane(s) && parent >= 0
    decreases Budget(s, parent), s.width + 1
  {
    SlotsFrom(s, peers, parent, 0)
  }

  /**
   * What the slot loop of the downward search from `parent` appends from
   * slot `slot` on: a child beyond endIndex stops the loop, a position
   * outside the list is skipped, a reachable child is taken, and an
   * unreachable one is replaced by a search from its position plus the offset.
   */
  function SlotsFrom(s: Snapshot, peers: set<NodeId>, parent: int, slot: int): seq<NodeId>
    requires Sane(s) && parent >= 0 && 0 <= slot <= s.width
    decreases Budget(s, parent), s.width - slot
  {
    if slot == s.width then []
    else
      var c := ChildIndex(parent, slot, s.width);
      if c > s.endIndex then []
      else if c >= |s.nodes| then SlotsFrom(s, peers, parent, slot + 1)
      else if s.nodes[c] in peers then [s.nodes[c]] + SlotsFrom(s, peers, parent, slot + 1)
      else Descend(s, peers, c + s.offset) + SlotsFrom(s, peers, parent, slot + 1)
  }

  // ---------------------------------------------------------------------
  // Upward search
  // ---------------------------------------------------------------------

  /**
   * What the upward walk appends once it stands at position q: the node at q
   * if it is a reachable peer, otherwise nothing at startIndex, otherwise
   * whatever the walk finds from the parent of q.
   */
  function AscendFrom(s: Snapshot, peers: set<NodeId>, q: int): seq<NodeId>
    requires Sane(s)
    decreases if q >= 0 then q else 0
  {
    if q < s.startIndex then []
    else if ReachableAt(s, peers, q) then [s.nodes[q]]
    else if q == s.startIndex then []
    else AscendFrom(s, peers, ParentIndex(q, s.width))
  }

  /** What the upward search from the node at `index` appends. */
  function ParentSelection(s: Snapshot, peers: set<NodeId>, index: int): seq<NodeId>
    requires Sane(s)
  {
    var q := ParentIndex(index, s.width);
    if q == index then [] else AscendFrom(s, peers, q)
  }

  // ---------------------------------------------------------------------
  // Entry point
  // ---------------------------------------------------------------------

  /**
   * The forward targets: a non-member sends to the root if the root is
   * reachable and otherwise searches down from the root; a member searches
   * down from its own position and then up.
   */
  function Selection(s: Snapshot, peers: set<NodeId>): seq<NodeId>
    requires Sane(s)
  {
    if s.consIndex < 0 then
      if ReachableAt(s, peers, 0) then [s.nodes[0]] else Descend(s, peers, 0)
    else
      Descend(s, peers, s.consIndex) + ParentSelection(s, peers, s.consIndex)
  }
}
