/**
 * The topology state of one network participant and the operations on it:
 * refreshing the consensus node list, looking positions and IDs up, and
 * selecting the peers a gossip message is forwarded to.
 */
module Topology {
  import opened TreeIndex
  import opened SelectionSpec

  /** Position of the first occurrence of `id` in `nodes`, or -1 if it does not occur. */
  function IndexOf(nodes: seq<NodeId>, id: NodeId): (r: int)
    ensures r == -1 <==> id !in nodes
    ensures r != -1 ==> 0 <= r < |nodes| && nodes[r] == id && id !in nodes[..r]
  {
    if nodes == [] then -1
    else if nodes[0] == id then 0
    else
      var r := IndexOf(nodes[1..], id);
      if r == -1 then -1 else r + 1
  }

  class TreeTopology {
    /** The local node's own ID. */
    const nodeId: NodeId
    /** Branching factor of the implicit tree. */
    const treeWidth: int
    /** Positions skipped beyond an unreachable child before searching below it. */
    const childOffset: int

    /** The ordered consensus node list: position in the list is position in the tree. */
    var consensusNodes: seq<NodeId>
    /** Position of the local node in the list, -1 if it is not a member. */
    var consIndex: int
    var startIndex: int
    var endIndex: int

    /** Every refresh leaves the derived fields consistent with the list. */
    ghost predicate Valid()
      reads this
    {
      treeWidth >= 1 && childOffset >= 0 &&
      consIndex == IndexOf(consensusNodes, nodeId) &&
      startIndex == 0 && endIndex == |consensusNodes| - 1
    }

    /** The state one selection call reads. */
    function Snap(): (s: Snapshot)
      reads this
      ensures Valid() ==> WellShaped(s)
    {
      Snapshot(consensusNodes, consIndex, startIndex, endIndex, treeWidth, childOffset)
    }

    /** A topology with an empty node list; the first refresh installs the real one. */
    constructor (nodeId: NodeId, treeWidth: int, childOffset: int)
      requires treeWidth >= 1 && childOffset >= 0
      ensures Valid()
      ensures this.nodeId == nodeId && this.treeWidth == treeWidth && this.childOffset == childOffset
      ensures consensusNodes == [] && consIndex == -1
    {
      this.nodeId := nodeId;
      this.treeWidth := treeWidth;
      this.childOffset := childOffset;
      consensusNodes := [];
      consIndex := -1;
      startIndex := 0;
      endIndex := -1;
    }

    /**
     * Installs a new consensus node list. A list equal to the stored one
     * changes nothing; otherwise the local position and the bounds are
     * recomputed from the new list.
     */
    method UpdateConsensusNodeInfo(nodes: seq<NodeId>)
      requires Valid()
      modifies this
      ensures Valid()
      ensures consensusNodes == nodes
      ensures consIndex == IndexOf(nodes, nodeId) && startIndex == 0 && endIndex == |nodes| - 1
      ensures old(consensusNodes) == nodes ==> unchanged(this)
    {
      if consensusNodes == nodes {
        return;
      }
      consensusNodes := nodes;
      consIndex := GetNodeIndexByNodeId(consensusNodes, nodeId);
      UpdateStartAndEndIndex();
    }

    /** Recomputes the bounds of the tree from the stored list. */
    method UpdateStartAndEndIndex()
      modifies this`startIndex, this`endIndex
      ensures startIndex == 0 && endIndex == |consensusNodes| - 1
    {
      startIndex := 0;
      // the size is unsigned in the original: size 0 gives SIZE_MAX, which the
      // cast back to a signed index turns into -1
      endIndex := |consensusNodes| - 1;
    }

    /** Linear search for the first position of `id`, -1 if absent. */
    static method GetNodeIndexByNodeId(findSet: seq<NodeId>, id: NodeId) returns (nodeIndex: int)
      ensures nodeIndex == IndexOf(findSet, id)
    {
      nodeIndex := -1;
      for i := 0 to |findSet|
        invariant id !in findSet[..i]
      {
        if id == findSet[i] {
          nodeIndex := i;
          break;
        }
      }
    }

    /**
     * The node ID at `nodeIndex`: found is false, and the ID passed in is
     * returned as it was, when the position lies beyond the list.
     */
    method GetNodeIdByIndex(current: NodeId, nodeIndex: int) returns (found: bool, id: NodeId)
      requires nodeIndex >= 0
      ensures found <==> nodeIndex < |consensusNodes|
      ensures found ==> id == consensusNodes[nodeIndex]
      ensures !found ==> id == current
    {
      if nodeIndex >= |consensusNodes| {
        return false, current;
      }
      return true, consensusNodes[nodeIndex];
    }

    /**
     * Downward search: appends to `selected` the reachable children of the
     * node at `parentIndex`, replacing each unreachable child by a search
     * from its position plus childOffset.
     */
    method RecursiveSelectChildNodes(selected: seq<NodeId>, parentIndex: int, peers: set<NodeId>)
      returns (result: seq<NodeId>)
      requires Valid() && parentIndex >= 0
      ensures result == selected + Descend(Snap(), peers, parentIndex)
      decreases Budget(Snap(), parentIndex)
    {
      result := selected;
      var selectedNode := ZeroId;
      for i := 0 to treeWidth
        invariant result + SlotsFrom(Snap(), peers, parentIndex, i) == selected + Descend(Snap(), peers, parentIndex)
      {
        var expectedIndex := ChildIndex(parentIndex, i, treeWidth);
        if expectedIndex > endIndex {
          break;
        }
        var found;
        found, selectedNode := GetNodeIdByIndex(selectedNode, expectedIndex);
        if found {
          if selectedNode in peers {
            result := result + [selectedNode];
          } else {
            result := RecursiveSelectChildNodes(result, expectedIndex + childOffset, peers);
          }
        }
      }
    }

    /**
     * Upward search: appends to `selected` the node at the nearest reachable
     * ancestor of the node at `nodeIndex`, if there is one.
     */
    method SelectParentNodes(selected: seq<NodeId>, peers: set<NodeId>, nodeIndex: int)
      returns (result: seq<NodeId>)
      requires Valid()
      ensures result == selected + ParentSelection(Snap(), peers, nodeIndex)
    {
      result := selected;
      var parentIndex := ParentIndex(nodeIndex, treeWidth);
      if parentIndex == nodeIndex {
        return;
      }
      var selectedNode := ZeroId;
      while parentIndex >= startIndex
        invariant result == selected
        invariant AscendFrom(Snap(), peers, parentIndex) == ParentSelection(Snap(), peers, nodeIndex)
        decreases parentIndex
      {
        var found;
        found, selectedNode := GetNodeIdByIndex(selectedNode, parentIndex);
        if found && selectedNode in peers {
          result := result + [selectedNode];
          break;
        }
        if parentIndex == startIndex {
          break;
        }
        parentIndex := ParentIndex(parentIndex, treeWidth);
      }
    }

    /**
     * The forward targets for one message: a non-member sends to the root if
     * it is reachable and otherwise searches down from the root; a member
     * searches down from its own position and then up.
     */
    method SelectNodes(peers: set<NodeId>) returns (selectedNodeList: seq<NodeId>)
      requires Valid()
      ensures selectedNodeList == Selection(Snap(), peers)
    {
      selectedNodeList := [];
      if consIndex < 0 {
        var selectedNode := ZeroId;
        var found;
        found, selectedNode := GetNodeIdByIndex(selectedNode, 0);
        if found && selectedNode in peers {
          selectedNodeList := selectedNodeList + [selectedNode];
          return;
        } else {
          selectedNodeList := RecursiveSelectChildNodes(selectedNodeList, 0, peers);
        }
      } else {
        selectedNodeList := RecursiveSelectChildNodes(selectedNodeList, consIndex, peers);
        selectedNodeList := SelectParentNodes(selectedNodeList, peers, consIndex);
      }
    }
  }
}
