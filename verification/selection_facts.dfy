/**
 * Properties of the selection functions: what the downward search may and
 * must pick, the shape of its result when every node is reachable, the
 * nearest-reachable-ancestor law of the upward search, and the guarantees of
 * the combined selection.
 */
module SelectionFacts {
  import opened TreeIndex
  import opened SelectionSpec

  // ---------------------------------------------------------------------
  // Downward search: soundness
  // ---------------------------------------------------------------------

  /**
   * x is a reachable peer found at a list position k after `parent` and no
   * later than endIndex. With offset 0, k is a descendant of `parent` and no
   * node strictly between `parent` and k is a reachable peer: the search
   * stops at the first reachable node on each branch.
   */
  ghost predicate PickedBelow(s: Snapshot, peers: set<NodeId>, parent: int, x: NodeId)
    requires Sane(s)
  {
    x in peers &&
    exists k :: parent < k <= s.endIndex && 0 <= k < |s.nodes| && s.nodes[k] == x &&
                (s.offset == 0 ==> IsAncestor(parent, k, s.width) &&
                                   forall b :: IsAncestor(parent, b, s.width) && IsAncestor(b, k, s.width) ==>
                                                 !ReachableAt(s, peers, b))
  }

  /** Everything the downward search from `parent` appends is picked below `parent`. */
  lemma {:induction false} DescendSound(s: Snapshot, peers: set<NodeId>, parent: int)
    requires Sane(s) && parent >= 0
    ensures forall x :: x in Descend(s, peers, parent) ==> PickedBelow(s, peers, parent, x)
    decreases Budget(s, parent), s.width + 1
  {
    SlotsSound(s, peers, parent, 0);
  }

  lemma {:induction false} SlotsSound(s: Snapshot, peers: set<NodeId>, parent: int, slot: int)
    requires Sane(s) && parent >= 0 && 0 <= slot <= s.width
    ensures forall x :: x in SlotsFrom(s, peers, parent, slot) ==> PickedBelow(s, peers, parent, x)
    decreases Budget(s, parent), s.width - slot
  {
    if slot < s.width {
      var c := ChildIndex(parent, slot, s.width);
      if c <= s.endIndex {
        ParentOfChild(parent, slot, s.width);
        SlotsSound(s, peers, parent, slot + 1);
        if c < |s.nodes| {
          assert IsAncestor(parent, c, s.width);
          NoneBetweenParentAndChild(parent, c, s.width);
          if s.nodes[c] in peers {
            assert PickedBelow(s, peers, parent, s.nodes[c]);
          } else {
            DescendSound(s, peers, c + s.offset);
            forall x | x in Descend(s, peers, c + s.offset)
              ensures PickedBelow(s, peers, parent, x)
            {
              var k :| c + s.offset < k <= s.endIndex && 0 <= k < |s.nodes| && s.nodes[k] == x &&
                       (s.offset == 0 ==> IsAncestor(c, k, s.width) &&
                                          forall b :: IsAncestor(c, b, s.width) && IsAncestor(b, k, s.width) ==>
                                                        !ReachableAt(s, peers, b));
              if s.offset == 0 {
                AncestorTransitive(parent, c, k, s.width);
                forall b | IsAncestor(parent, b, s.width) && IsAncestor(b, k, s.width)
                  ensures !ReachableAt(s, peers, b)
                {
                  AncestorsComparable(b, c, k, s.width);
                }
              }
            }
          }
        }
      }
    }
  }

  /** Two ancestors of the same position are equal or one is an ancestor of the other. */
  lemma {:induction false} AncestorsComparable(a: int, b: int, k: int, width: int)
    requires width >= 1 && IsAncestor(a, k, width) && IsAncestor(b, k, width)
    ensures a == b || IsAncestor(a, b, width) || IsAncestor(b, a, width)
    decreases k
  {
    var q := ParentIndex(k, width);
    if a != q && b != q {
      AncestorsComparable(a, b, q, width);
    }
  }

  /** No position lies strictly between a node and one of its children. */
  lemma NoneBetweenParentAndChild(parent: int, c: int, width: int)
    requires width >= 1 && c >= 1 && ParentIndex(c, width) == parent
    ensures forall b :: IsAncestor(b, c, width) ==> !IsAncestor(parent, b, width)
  {
    forall b | IsAncestor(b, c, width)
      ensures !IsAncestor(parent, b, width)
    {
      if b != parent {
        AncestorBefore(b, parent, width);
      }
      NotAncestorOfEarlier(parent, b, width);
    }
  }

  /** A position is never an ancestor of a position at or before it. */
  lemma NotAncestorOfEarlier(a: int, n: int, width: int)
    requires width >= 1 && n <= a
    ensures !IsAncestor(a, n, width)
  {
    if IsAncestor(a, n, width) {
      AncestorBefore(a, n, width);
    }
  }

  /** With no reachable peer at all, the downward search appends nothing. */
  lemma {:induction false} DescendNoPeers(s: Snapshot, parent: int)
    requires Sane(s) && parent >= 0
    ensures Descend(s, {}, parent) == []
    decreases Budget(s, parent), s.width + 1
  {
    SlotsNoPeers(s, parent, 0);
  }

  lemma {:induction false} SlotsNoPeers(s: Snapshot, parent: int, slot: int)
    requires Sane(s) && parent >= 0 && 0 <= slot <= s.width
    ensures SlotsFrom(s, {}, parent, slot) == []
    decreases Budget(s, parent), s.width - slot
  {
    if slot < s.width {
      var c := ChildIndex(parent, slot, s.width);
      if c <= s.endIndex {
        SlotsNoPeers(s, parent, slot + 1);
        if c < |s.nodes| {
          DescendNoPeers(s, c + s.offset);
        }
      }
    }
  }

  // ---------------------------------------------------------------------
  // Downward search: completeness along a branch (offset 0)
  // ---------------------------------------------------------------------

  /** The ancestor of k (or k itself) whose parent is `parent`. */
  lemma {:induction false} ChildOnPath(parent: int, k: int, width: int) returns (c: int)
    requires width >= 1 && IsAncestor(parent, k, width)
    ensures c >= 1 && ParentIndex(c, width) == parent
    ensures c == k || IsAncestor(c, k, width)
    decreases k
  {
    var q := ParentIndex(k, width);
    if q == parent {
      c := k;
    } else {
      c := ChildOnPath(parent, q, width);
    }
  }

  /** What slot `slot` of the loop contributes. */
  function SlotPart(s: Snapshot, peers: set<NodeId>, parent: int, slot: int): seq<NodeId>
    requires Sane(s) && parent >= 0 && 0 <= slot < s.width
  {
    var c := ChildIndex(parent, slot, s.width);
    ParentOfChild(parent, slot, s.width);
    if c >= |s.nodes| then []
    else if s.nodes[c] in peers then [s.nodes[c]]
    else Descend(s, peers, c + s.offset)
  }

  /** A slot whose child is within endIndex contributes to the loop run from any earlier slot. */
  lemma {:induction false} SlotPartIncluded(s: Snapshot, peers: set<NodeId>, parent: int, from: int, slot: int)
    requires Sane(s) && parent >= 0 && 0 <= from <= slot < s.width
    requires ChildIndex(parent, slot, s.width) <= s.endIndex
    ensures forall x :: x in SlotPart(s, peers, parent, slot) ==> x in SlotsFrom(s, peers, parent, from)
    decreases slot - from
  {
    if from < slot {
      SlotPartIncluded(s, peers, parent, from + 1, slot);
    }
  }

  /**
   * With offset 0 the downward search misses no branch: a reachable
   * descendant k of `parent` whose ancestors strictly between `parent` and k
   * are all unreachable is selected.
   */
  lemma {:induction false} DescendComplete(s: Snapshot, peers: set<NodeId>, parent: int, k: int)
    requires Sane(s) && s.offset == 0 && parent >= 0
    requires IsAncestor(parent, k, s.width) && k <= s.endIndex && ReachableAt(s, peers, k)
    requires forall b :: IsAncestor(parent, b, s.width) && IsAncestor(b, k, s.width) ==> !ReachableAt(s, peers, b)
    ensures s.nodes[k] in Descend(s, peers, parent)
    decreases k - parent
  {
    var c := ChildOnPath(parent, k, s.width);
    var slot := (c - 1) % s.width;
    ChildOfParent(c, s.width);
    assert c == ChildIndex(parent, slot, s.width);
    if c != k {
      AncestorBefore(c, k, s.width);
      assert IsAncestor(parent, c, s.width);
      assert !ReachableAt(s, peers, c);
      forall b | IsAncestor(c, b, s.width) && IsAncestor(b, k, s.width)
        ensures !ReachableAt(s, peers, b)
      {
        AncestorTransitive(parent, c, b, s.width);
      }
      AncestorBefore(parent, c, s.width);
      DescendComplete(s, peers, c, k);
      assert SlotPart(s, peers, parent, slot) == Descend(s, peers, c);
    }
    SlotPartIncluded(s, peers, parent, 0, slot);
  }

  // ---------------------------------------------------------------------
  // Downward search when every node is reachable
  // ---------------------------------------------------------------------

  function Min(a: int, b: int): int {
    if a <= b then a else b
  }

  /**
   * The direct children of `parent` that lie within endIndex, in slot order:
   * positions parent * width + 1 .. parent * width + width.
   */
  function DirectChildren(s: Snapshot, parent: int): (r: seq<NodeId>)
    requires Sane(s) && parent >= 0 && s.endIndex < |s.nodes|
    ensures |r| <= s.width
  {
    DirectChildrenFrom(s, parent, 0)
  }

  /** The direct children of `parent` from slot `slot` on that lie within endIndex. */
  function DirectChildrenFrom(s: Snapshot, parent: int, slot: int): (r: seq<NodeId>)
    requires Sane(s) && parent >= 0 && s.endIndex < |s.nodes| && 0 <= slot <= s.width
    ensures |r| <= s.width - slot
  {
    var lo := ChildIndex(parent, slot, s.width);
    var hi := Min(ChildIndex(parent, s.width - 1, s.width), s.endIndex);
    if slot == s.width || lo > hi then [] else s.nodes[lo..hi + 1]
  }

  lemma {:induction false} SlotsAllPeers(s: Snapshot, peers: set<NodeId>, parent: int, slot: int)
    requires Sane(s) && parent >= 0 && s.endIndex < |s.nodes| && 0 <= slot <= s.width
    requires forall k :: 0 <= k < |s.nodes| ==> s.nodes[k] in peers
    ensures SlotsFrom(s, peers, parent, slot) == DirectChildrenFrom(s, parent, slot)
    decreases s.width - slot
  {
    if slot < s.width {
      var c := ChildIndex(parent, slot, s.width);
      var hi := Min(ChildIndex(parent, s.width - 1, s.width), s.endIndex);
      ParentOfChild(parent, slot, s.width);
      if c <= s.endIndex {
        SlotsAllPeers(s, peers, parent, slot + 1);
        assert s.nodes[c] in peers;
        assert SlotsFrom(s, peers, parent, slot) == [s.nodes[c]] + SlotsFrom(s, peers, parent, slot + 1);
        assert c <= hi;
        assert DirectChildrenFrom(s, parent, slot) == s.nodes[c..hi + 1];
        if c + 1 <= hi {
          assert ChildIndex(parent, slot + 1, s.width) == c + 1;
          assert DirectChildrenFrom(s, parent, slot + 1) == s.nodes[c + 1..hi + 1];
          assert s.nodes[c..hi + 1] == [s.nodes[c]] + s.nodes[c + 1..hi + 1];
        } else {
          assert DirectChildrenFrom(s, parent, slot + 1) == [];
          assert s.nodes[c..hi + 1] == [s.nodes[c]];
        }
      }
    }
  }

  /**
   * If every list member is a reachable peer, the downward search appends
   * exactly the in-range direct children, in slot order, and never recurses.
   */
  lemma DescendAllPeers(s: Snapshot, peers: set<NodeId>, parent: int)
    requires Sane(s) && parent >= 0 && s.endIndex < |s.nodes|
    requires forall k :: 0 <= k < |s.nodes| ==> s.nodes[k] in peers
    ensures Descend(s, peers, parent) == DirectChildren(s, parent)
  {
    SlotsAllPeers(s, peers, parent, 0);
  }

  // ---------------------------------------------------------------------
  // Upward search
  // ---------------------------------------------------------------------

  /** b is q itself or an ancestor of q. */
  predicate OnPath(b: int, q: int, width: int)
    requires width >= 1
  {
    b == q || IsAncestor(b, q, width)
  }

  /**
   * a is the nearest proper ancestor of n that is a reachable peer: no
   * ancestor between a and n is reachable.
   */
  ghost predicate NearestReachableAncestor(s: Snapshot, peers: set<NodeId>, n: int, a: int)
    requires Sane(s)
  {
    IsAncestor(a, n, s.width) && ReachableAt(s, peers, a) &&
    forall b :: IsAncestor(b, n, s.width) && a < b ==> !ReachableAt(s, peers, b)
  }

  lemma {:induction false} AscendFromShape(s: Snapshot, peers: set<NodeId>, q: int)
    requires Sane(s) && s.startIndex == 0 && q >= 0
    ensures AscendFrom(s, peers, q) == [] ==>
              forall b :: OnPath(b, q, s.width) ==> !ReachableAt(s, peers, b)
    ensures AscendFrom(s, peers, q) == [] ||
              exists a :: OnPath(a, q, s.width) && ReachableAt(s, peers, a) &&
                          AscendFrom(s, peers, q) == [s.nodes[a]] &&
                          forall b :: OnPath(b, q, s.width) && a < b ==> !ReachableAt(s, peers, b)
    decreases q
  {
    if ReachableAt(s, peers, q) {
      forall b | OnPath(b, q, s.width)
        ensures b <= q
      {
        if b != q {
          AncestorBefore(b, q, s.width);
        }
      }
      assert OnPath(q, q, s.width);
    } else if q == 0 {
      assert forall b :: OnPath(b, q, s.width) ==> b == q;
    } else {
      var p := ParentIndex(q, s.width);
      AscendFromShape(s, peers, p);
      assert forall b :: OnPath(b, q, s.width) <==> b == q || OnPath(b, p, s.width);
    }
  }

  /**
   * The upward search from n appends at most one node: the node at the
   * nearest reachable ancestor of n, or nothing when no ancestor of n is a
   * reachable peer (in particular from the root).
   */
  lemma ParentSelectionNearest(s: Snapshot, peers: set<NodeId>, n: int)
    requires Sane(s) && s.startIndex == 0 && n >= 0
    ensures |ParentSelection(s, peers, n)| <= 1
    ensures n == 0 ==> ParentSelection(s, peers, n) == []
    ensures ParentSelection(s, peers, n) == [] <==>
              forall a :: IsAncestor(a, n, s.width) ==> !ReachableAt(s, peers, a)
    ensures ParentSelection(s, peers, n) == [] ||
              exists a :: NearestReachableAncestor(s, peers, n, a) &&
                          ParentSelection(s, peers, n) == [s.nodes[a]]
  {
    if n >= 1 {
      var q := ParentIndex(n, s.width);
      AscendFromShape(s, peers, q);
      assert forall b :: IsAncestor(b, n, s.width) <==> OnPath(b, q, s.width);
      if ParentSelection(s, peers, n) != [] {
        var a :| OnPath(a, q, s.width) && ReachableAt(s, peers, a) &&
                 AscendFrom(s, peers, q) == [s.nodes[a]] &&
                 forall b :: OnPath(b, q, s.width) && a < b ==> !ReachableAt(s, peers, b);
        assert NearestReachableAncestor(s, peers, n, a);
      }
    }
  }

  // ---------------------------------------------------------------------
  // The combined selection
  // ---------------------------------------------------------------------

  predicate NoDuplicates(nodes: seq<NodeId>) {
    forall i, j :: 0 <= i < j < |nodes| ==> nodes[i] != nodes[j]
  }

  /**
   * Every forward target is a reachable peer taken from the list at a
   * position other than the local node's; hence, in a list without
   * duplicates, a member never forwards to itself. A non-member whose root is
   * reachable forwards to the root alone, and with no reachable peer nothing
   * is selected.
   */
  lemma SelectionSound(s: Snapshot, peers: set<NodeId>)
    requires WellShaped(s)
    ensures forall x :: x in Selection(s, peers) ==>
              x in peers && exists k :: 0 <= k < |s.nodes| && k != s.consIndex && s.nodes[k] == x
    ensures NoDuplicates(s.nodes) && s.consIndex >= 0 ==> s.nodes[s.consIndex] !in Selection(s, peers)
    ensures s.consIndex < 0 && ReachableAt(s, peers, 0) ==> Selection(s, peers) == [s.nodes[0]]
    ensures peers == {} ==> Selection(s, peers) == []
  {
    var start := if s.consIndex < 0 then 0 else s.consIndex;
    DescendSound(s, peers, start);
    if peers == {} {
      DescendNoPeers(s, start);
    }
    if s.consIndex >= 0 {
      ParentSelectionNearest(s, peers, s.consIndex);
      var up := ParentSelection(s, peers, s.consIndex);
      if up != [] {
        var a :| NearestReachableAncestor(s, peers, s.consIndex, a) && up == [s.nodes[a]];
        AncestorBefore(a, s.consIndex, s.width);
      }
    }
    forall x | x in Selection(s, peers)
      ensures x in peers && exists k :: 0 <= k < |s.nodes| && k != s.consIndex && s.nodes[k] == x
    {
      if s.consIndex < 0 && ReachableAt(s, peers, 0) {
        assert s.nodes[0] == x;
      }
    }
  }

  /**
   * If every list member is a reachable peer, a member forwards exactly to
   * its in-range direct children, in slot order, followed by its direct
   * parent unless it is the root.
   */
  lemma SelectionAllPeers(s: Snapshot, peers: set<NodeId>)
    requires WellShaped(s) && s.consIndex >= 0
    requires forall k :: 0 <= k < |s.nodes| ==> s.nodes[k] in peers
    ensures Selection(s, peers) ==
              DirectChildren(s, s.consIndex) +
              (if s.consIndex == 0 then [] else [s.nodes[ParentIndex(s.consIndex, s.width)]])
  {
    DescendAllPeers(s, peers, s.consIndex);
  }

  // ---------------------------------------------------------------------
  // Worked scenarios: list [A, B, C, D, E, F, G], width 2, offset 0
  // ---------------------------------------------------------------------

  /** The tree of the scenarios: seven positions, width 2, offset 0. */
  predicate SevenNodeTree(s: Snapshot) {
    s.width == 2 && s.offset == 0 && s.startIndex == 0 && s.endIndex == 6 && |s.nodes| == 7
  }

  /** Below B (position 1), with D reachable and E not: D alone is taken, E's children are out of range. */
  lemma ScenarioBelowB(s: Snapshot, peers: set<NodeId>)
    requires SevenNodeTree(s) && s.nodes[3] in peers && s.nodes[4] !in peers
    ensures Descend(s, peers, 1) == [s.nodes[3]]
  {
    assert ChildIndex(4, 0, s.width) == 9;
    assert SlotsFrom(s, peers, 4, 0) == [];
    assert ChildIndex(1, 1, s.width) == 4;
    assert SlotsFrom(s, peers, 1, 2) == [];
    assert SlotsFrom(s, peers, 1, 1) == [];
    assert ChildIndex(1, 0, s.width) == 3;
    assert SlotsFrom(s, peers, 1, 0) == [s.nodes[3]];
  }

  /**
   * Two slots, the first child not a reachable peer and the second one
   * reachable: the search from the first child's restart position, then the
   * second child.
   */
  lemma TwoSlotsRecurseThenTake(s: Snapshot, peers: set<NodeId>, p: int, c0: int, c1: int, next: int)
    requires Sane(s) && s.width == 2 && p >= 0
    requires c0 == ChildIndex(p, 0, s.width) && c1 == ChildIndex(p, 1, s.width)
    requires c1 <= s.endIndex && c1 < |s.nodes| && next == c0 + s.offset
    requires s.nodes[c0] !in peers && s.nodes[c1] in peers
    ensures Descend(s, peers, p) == Descend(s, peers, next) + [s.nodes[c1]]
  {
    assert SlotsFrom(s, peers, p, 1) == [s.nodes[c1]] by {
      assert SlotsFrom(s, peers, p, 2) == [];
    }
    assert SlotsFrom(s, peers, p, 0) == Descend(s, peers, next) + SlotsFrom(s, peers, p, 1);
  }

  /** Below A (position 0), with B unreachable and C reachable: B's subtree, then C. */
  lemma ScenarioBelowA(s: Snapshot, peers: set<NodeId>)
    requires SevenNodeTree(s) && s.nodes[1] !in peers && s.nodes[2] in peers
    ensures Descend(s, peers, 0) == Descend(s, peers, 1) + [s.nodes[2]]
  {
    TwoSlotsRecurseThenTake(s, peers, 0, 1, 2, 1);
  }

  /**
   * Node A (the root) with reachable peers {C, D}: B is unreachable, so the
   * search descends to B's children and takes D; E has no children in range;
   * C is taken directly. The root has no parent to add.
   */
  lemma ScenarioRootDescends(a: NodeId, b: NodeId, c: NodeId, d: NodeId, e: NodeId, f: NodeId, g: NodeId)
    requires b != c && b != d && e != c && e != d
    ensures Selection(Snapshot([a, b, c, d, e, f, g], 0, 0, 6, 2, 0), {c, d}) == [d, c]
  {
    var s := Snapshot([a, b, c, d, e, f, g], 0, 0, 6, 2, 0);
    var peers := {c, d};
    assert s.nodes[1] == b && s.nodes[2] == c && s.nodes[3] == d && s.nodes[4] == e;
    ScenarioBelowB(s, peers);
    ScenarioBelowA(s, peers);
    ParentSelectionNearest(s, peers, 0);
  }

  /**
   * Node D (position 3) with reachable peers {A}: D has no children in
   * range; its parent B is unreachable, so the walk goes up to A and takes it.
   */
  lemma ScenarioAscendPastUnreachableParent(a: NodeId, b: NodeId, c: NodeId, d: NodeId, e: NodeId, f: NodeId, g: NodeId)
    requires a != b
    ensures Selection(Snapshot([a, b, c, d, e, f, g], 3, 0, 6, 2, 0), {a}) == [a]
  {
    var s := Snapshot([a, b, c, d, e, f, g], 3, 0, 6, 2, 0);
    var peers := {a};
    assert s.width == 2 && s.offset == 0 && s.endIndex == 6 && |s.nodes| == 7;
    assert ChildIndex(3, 0, s.width) == 7;
    assert SlotsFrom(s, peers, 3, 0) == [];
    assert Descend(s, peers, 3) == [];
    assert ParentIndex(3, s.width) == 1 && ParentIndex(1, s.width) == 0;
    assert s.nodes[0] == a && s.nodes[1] == b;
    assert AscendFrom(s, peers, 0) == [a];
    assert AscendFrom(s, peers, 1) == [a];
    assert ParentSelection(s, peers, 3) == [a];
  }
}
