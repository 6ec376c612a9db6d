/** Option, as used for java.util.Optional in getSubscriptionForTransfer. */
module Wrappers {
  datatype Option<T> = None | Some(value: T)
}

/**
 * The values the workload balancer works on: subscriptions, consumer nodes,
 * assignments of one to the other, and the queries the balancer asks of a set
 * of assignments (count per subscription, load per node, who serves whom).
 * Everything here is pure; the mutable view lives in module AssignmentViews.
 */
module Assignments {

  type SubscriptionName = string
  type NodeId = string

  /** One subscription served by one consumer node. autoAssigned == false marks an operator's pin. */
  datatype SubscriptionAssignment = SubscriptionAssignment(subscription: SubscriptionName, node: NodeId, autoAssigned: bool)

  /** No two assignments share the same (subscription, node) pair. */
  predicate UniquePairs(A: set<SubscriptionAssignment>) {
    forall a, b :: a in A && b in A && a.subscription == b.subscription && a.node == b.node ==> a == b
  }

  /** The invariant of an assignment view: every assignment names a known subscription and node, pairs are unique. */
  predicate WellFormed(subscriptions: set<SubscriptionName>, nodes: set<NodeId>, A: set<SubscriptionAssignment>) {
    && (forall a :: a in A ==> a.subscription in subscriptions && a.node in nodes)
    && UniquePairs(A)
  }

  function AssignmentsForSubscription(A: set<SubscriptionAssignment>, s: SubscriptionName): set<SubscriptionAssignment> {
    set a | a in A && a.subscription == s
  }

  function AutoAssignmentsForSubscription(A: set<SubscriptionAssignment>, s: SubscriptionName): set<SubscriptionAssignment> {
    set a | a in AssignmentsForSubscription(A, s) && a.autoAssigned
  }

  /** The operator's pins of a subscription. */
  function ManualAssignmentsForSubscription(A: set<SubscriptionAssignment>, s: SubscriptionName): set<SubscriptionAssignment> {
    set a | a in AssignmentsForSubscription(A, s) && !a.autoAssigned
  }

  function SubscriptionCount(A: set<SubscriptionAssignment>, s: SubscriptionName): nat {
    |AssignmentsForSubscription(A, s)|
  }

  function AssignmentsForNode(A: set<SubscriptionAssignment>, n: NodeId): set<SubscriptionAssignment> {
    set a | a in A && a.node == n
  }

  /** The load of a node: the number of assignments it holds. */
  function NodeLoad(A: set<SubscriptionAssignment>, n: NodeId): nat {
    |AssignmentsForNode(A, n)|
  }

  function SubscriptionsForNode(A: set<SubscriptionAssignment>, n: NodeId): set<SubscriptionName> {
    set a | a in A && a.node == n :: a.subscription
  }

  function NodesForSubscription(A: set<SubscriptionAssignment>, s: SubscriptionName): set<NodeId> {
    set a | a in A && a.subscription == s :: a.node
  }

  /** Adding one assignment adds its node to its own subscription's nodes and changes nothing else. */
  lemma NodesForSubscriptionAfterAdd(A: set<SubscriptionAssignment>, a: SubscriptionAssignment, s: SubscriptionName)
    ensures NodesForSubscription(A + {a}, s) == NodesForSubscription(A, s) + (if a.subscription == s then {a.node} else {})
  {
  }

  lemma SubsetCardinality<T>(small: set<T>, large: set<T>)
    requires small <= large
    ensures |small| <= |large|
  {
    assert large == small + (large - small);
  }

  /** A subscription's assignments split into auto-assigned ones and pins. */
  /** Adding assignments never lowers a subscription's count. */
  lemma CountGrowsWithSet(small: set<SubscriptionAssignment>, large: set<SubscriptionAssignment>, s: SubscriptionName)
    requires small <= large
    ensures SubscriptionCount(small, s) <= SubscriptionCount(large, s)
  {
    SubsetCardinality(AssignmentsForSubscription(small, s), AssignmentsForSubscription(large, s));
  }

  lemma {:induction false} CountIsAutoPlusManual(A: set<SubscriptionAssignment>, s: SubscriptionName)
    ensures SubscriptionCount(A, s) == |AutoAssignmentsForSubscription(A, s)| + |ManualAssignmentsForSubscription(A, s)|
  {
    assert AssignmentsForSubscription(A, s) == AutoAssignmentsForSubscription(A, s) + ManualAssignmentsForSubscription(A, s);
    assert AutoAssignmentsForSubscription(A, s) !! ManualAssignmentsForSubscription(A, s);
  }

  /** On a set where the subscription identifies the assignment, there are as many subscriptions as assignments. */
  lemma {:induction false} InjectiveSubscriptionImage(S: set<SubscriptionAssignment>)
    requires forall a, b :: a in S && b in S && a.subscription == b.subscription ==> a == b
    ensures |S| == |set a | a in S :: a.subscription|
    decreases |S|
  {
    if S != {} {
      var x :| x in S;
      var rest := S - {x};
      InjectiveSubscriptionImage(rest);
      var image := set a | a in S :: a.subscription;
      var restImage := set a | a in rest :: a.subscription;
      assert image == restImage + {x.subscription};
      assert x.subscription !in restImage;
    }
  }

  /** With unique pairs, a node's load is the number of distinct subscriptions it serves. */
  lemma NodeLoadCountsSubscriptions(A: set<SubscriptionAssignment>, n: NodeId)
    requires UniquePairs(A)
    ensures NodeLoad(A, n) == |SubscriptionsForNode(A, n)|
  {
    var S := AssignmentsForNode(A, n);
    InjectiveSubscriptionImage(S);
    assert (set a | a in S :: a.subscription) == SubscriptionsForNode(A, n);
  }

  /**
   * Pigeonhole: if every subscription of `from` is also served by `to`, then
   * `from` is not more loaded than `to`.
   */
  lemma CoveredNodeIsNotHeavier(A: set<SubscriptionAssignment>, from: NodeId, to: NodeId)
    requires UniquePairs(A)
    requires forall s :: s in SubscriptionsForNode(A, from) ==> to in NodesForSubscription(A, s)
    ensures NodeLoad(A, from) <= NodeLoad(A, to)
  {
    forall s | s in SubscriptionsForNode(A, from)
      ensures s in SubscriptionsForNode(A, to)
    {
      assert to in NodesForSubscription(A, s);
      var a :| a in A && a.subscription == s && a.node == to;
    }
    SubsetCardinality(SubscriptionsForNode(A, from), SubscriptionsForNode(A, to));
    NodeLoadCountsSubscriptions(A, from);
    NodeLoadCountsSubscriptions(A, to);
  }

  /** The same fact read forwards: a heavier node always has a subscription `to` lacks. */
  lemma HeavierNodeHasTransferCandidate(A: set<SubscriptionAssignment>, from: NodeId, to: NodeId)
    requires UniquePairs(A)
    requires NodeLoad(A, from) > NodeLoad(A, to)
    ensures exists s :: s in SubscriptionsForNode(A, from) && to !in NodesForSubscription(A, s)
  {
    if forall s :: s in SubscriptionsForNode(A, from) ==> to in NodesForSubscription(A, s) {
      CoveredNodeIsNotHeavier(A, from, to);
    }
  }

  /**
   * The set-level effect of moving subscription s from node `from` to node `to`:
   * the (s, from) assignment is removed and an auto-assigned (s, to) one is added.
   */
  function Transferred(A: set<SubscriptionAssignment>, from: NodeId, to: NodeId, s: SubscriptionName): set<SubscriptionAssignment> {
    (set a | a in A && !(a.subscription == s && a.node == from)) + {SubscriptionAssignment(s, to, true)}
  }

  /** The conditions under which equalizeWorkload transfers a subscription. */
  predicate CanTransfer(A: set<SubscriptionAssignment>, from: NodeId, to: NodeId, s: SubscriptionName) {
    s in SubscriptionsForNode(A, from) && to !in NodesForSubscription(A, s)
  }

  /** The single assignment that a transfer removes. */
  lemma TransferredAssignment(A: set<SubscriptionAssignment>, from: NodeId, to: NodeId, s: SubscriptionName) returns (moved: SubscriptionAssignment)
    requires UniquePairs(A) && CanTransfer(A, from, to, s)
    ensures moved in A && moved.subscription == s && moved.node == from
    ensures from != to
    ensures Transferred(A, from, to, s) == A - {moved} + {SubscriptionAssignment(s, to, true)}
    ensures SubscriptionAssignment(s, to, true) !in A
  {
    moved :| moved in A && moved.subscription == s && moved.node == from;
    assert from in NodesForSubscription(A, s);
  }

  /** A transfer keeps (subscription, node) pairs unique. */
  lemma TransferKeepsPairsUnique(A: set<SubscriptionAssignment>, from: NodeId, to: NodeId, s: SubscriptionName)
    requires UniquePairs(A) && CanTransfer(A, from, to, s)
    ensures UniquePairs(Transferred(A, from, to, s))
  {
    var added := SubscriptionAssignment(s, to, true);
    var B := Transferred(A, from, to, s);
    forall a | a in A && a.subscription == s ensures a.node in NodesForSubscription(A, s) {
    }
  }

  lemma TransferPreservesCountOf(A: set<SubscriptionAssignment>, from: NodeId, to: NodeId, s: SubscriptionName, t: SubscriptionName,
                                  moved: SubscriptionAssignment)
    requires moved in A && moved.subscription == s && moved.node == from
    requires Transferred(A, from, to, s) == A - {moved} + {SubscriptionAssignment(s, to, true)}
    requires SubscriptionAssignment(s, to, true) !in A
    ensures SubscriptionCount(Transferred(A, from, to, s), t) == SubscriptionCount(A, t)
  {
    var added := SubscriptionAssignment(s, to, true);
    var before := AssignmentsForSubscription(A, t);
    var after := AssignmentsForSubscription(Transferred(A, from, to, s), t);
    if t == s {
      assert after == before - {moved} + {added};
      assert added !in before - {moved};
    } else {
      assert after == before;
    }
  }

  /** A transfer keeps the total number of assignments and every subscription's count. */
  lemma TransferPreservesCounts(A: set<SubscriptionAssignment>, from: NodeId, to: NodeId, s: SubscriptionName)
    requires UniquePairs(A) && CanTransfer(A, from, to, s)
    ensures |Transferred(A, from, to, s)| == |A|
    ensures forall t :: SubscriptionCount(Transferred(A, from, to, s), t) == SubscriptionCount(A, t)
  {
    var moved := TransferredAssignment(A, from, to, s);
    forall t ensures SubscriptionCount(Transferred(A, from, to, s), t) == SubscriptionCount(A, t) {
      TransferPreservesCountOf(A, from, to, s, t, moved);
    }
  }

  /** A transfer moves exactly one unit of load from `from` to `to`, and no other node's load changes. */
  lemma TransferMovesOneUnitOfLoad(A: set<SubscriptionAssignment>, from: NodeId, to: NodeId, s: SubscriptionName)
    requires UniquePairs(A) && CanTransfer(A, from, to, s)
    ensures NodeLoad(Transferred(A, from, to, s), from) == NodeLoad(A, from) - 1
    ensures NodeLoad(Transferred(A, from, to, s), to) == NodeLoad(A, to) + 1
    ensures forall m :: m != from && m != to ==> NodeLoad(Transferred(A, from, to, s), m) == NodeLoad(A, m)
  {
    var moved := TransferredAssignment(A, from, to, s);
    var added := SubscriptionAssignment(s, to, true);
    var B := Transferred(A, from, to, s);
    assert AssignmentsForNode(B, from) == AssignmentsForNode(A, from) - {moved};
    assert AssignmentsForNode(B, to) == AssignmentsForNode(A, to) + {added};
    forall m | m != from && m != to ensures NodeLoad(B, m) == NodeLoad(A, m) {
      assert AssignmentsForNode(B, m) == AssignmentsForNode(A, m);
    }
  }

  predicate IsMaxLoaded(A: set<SubscriptionAssignment>, nodes: set<NodeId>, n: NodeId) {
    n in nodes && forall m :: m in nodes ==> NodeLoad(A, m) <= NodeLoad(A, n)
  }

  predicate IsMinLoaded(A: set<SubscriptionAssignment>, nodes: set<NodeId>, n: NodeId) {
    n in nodes && forall m :: m in nodes ==> NodeLoad(A, n) <= NodeLoad(A, m)
  }

  /** A non-empty finite set of nodes has a most-loaded member. */
  lemma {:induction false} MaxLoadedExists(A: set<SubscriptionAssignment>, nodes: set<NodeId>)
    requires nodes != {}
    ensures exists n :: IsMaxLoaded(A, nodes, n)
    decreases nodes
  {
    var x :| x in nodes;
    if nodes == {x} {
      assert IsMaxLoaded(A, nodes, x);
    } else {
      MaxLoadedExists(A, nodes - {x});
      var y :| IsMaxLoaded(A, nodes - {x}, y);
      if NodeLoad(A, x) >= NodeLoad(A, y) {
        assert IsMaxLoaded(A, nodes, x);
      } else {
        assert IsMaxLoaded(A, nodes, y);
      }
    }
  }

  /** A non-empty finite set of nodes has a least-loaded member. */
  lemma {:induction false} MinLoadedExists(A: set<SubscriptionAssignment>, nodes: set<NodeId>)
    requires nodes != {}
    ensures exists n :: IsMinLoaded(A, nodes, n)
    decreases nodes
  {
    var x :| x in nodes;
    if nodes == {x} {
      assert IsMinLoaded(A, nodes, x);
    } else {
      MinLoadedExists(A, nodes - {x});
      var y :| IsMinLoaded(A, nodes - {x}, y);
      if NodeLoad(A, x) <= NodeLoad(A, y) {
        assert IsMinLoaded(A, nodes, x);
      } else {
        assert IsMinLoaded(A, nodes, y);
      }
    }
  }

  /** The largest load among the nodes (0 when there are none). */
  ghost function MaxLoad(A: set<SubscriptionAssignment>, nodes: set<NodeId>): (peak: nat)
    ensures forall n :: n in nodes ==> NodeLoad(A, n) <= peak
    ensures nodes != {} ==> exists n :: n in nodes && NodeLoad(A, n) == peak
  {
    if nodes == {} then 0
    else
      MaxLoadedExists(A, nodes);
      var n :| IsMaxLoaded(A, nodes, n);
      NodeLoad(A, n)
  }

  /** The smallest load among the nodes (0 when there are none). */
  ghost function MinLoad(A: set<SubscriptionAssignment>, nodes: set<NodeId>): (floor: nat)
    ensures forall n :: n in nodes ==> floor <= NodeLoad(A, n)
    ensures nodes != {} ==> exists n :: n in nodes && NodeLoad(A, n) == floor
  {
    if nodes == {} then 0
    else
      MinLoadedExists(A, nodes);
      var n :| IsMinLoaded(A, nodes, n);
      NodeLoad(A, n)
  }

  /** Every two nodes' loads differ by at most one. */
  predicate Balanced(A: set<SubscriptionAssignment>, nodes: set<NodeId>) {
    forall n, m :: n in nodes && m in nodes ==> NodeLoad(A, n) <= NodeLoad(A, m) + 1
  }

  lemma ExtremesCloseMeansBalanced(A: set<SubscriptionAssignment>, nodes: set<NodeId>, maxNode: NodeId, minNode: NodeId)
    requires IsMaxLoaded(A, nodes, maxNode) && IsMinLoaded(A, nodes, minNode)
    requires NodeLoad(A, maxNode) <= NodeLoad(A, minNode) + 1
    ensures Balanced(A, nodes)
  {
  }

  /** The sum over the nodes of the square of their loads: the measure that equalization lowers. */
  ghost function LoadSquares(A: set<SubscriptionAssignment>, nodes: set<NodeId>): nat
    decreases nodes
  {
    if nodes == {} then 0
    else
      var n :| n in nodes;
      NodeLoad(A, n) * NodeLoad(A, n) + LoadSquares(A, nodes - {n})
  }

  lemma {:induction false} LoadSquaresSplit(A: set<SubscriptionAssignment>, nodes: set<NodeId>, x: NodeId)
    requires x in nodes
    ensures LoadSquares(A, nodes) == NodeLoad(A, x) * NodeLoad(A, x) + LoadSquares(A, nodes - {x})
    decreases nodes
  {
    var n :| n in nodes && LoadSquares(A, nodes) == NodeLoad(A, n) * NodeLoad(A, n) + LoadSquares(A, nodes - {n});
    if n != x {
      LoadSquaresSplit(A, nodes - {n}, x);
      LoadSquaresSplit(A, nodes - {x}, n);
      assert nodes - {n} - {x} == nodes - {x} - {n};
    }
  }

  lemma {:induction false} LoadSquaresAgree(A: set<SubscriptionAssignment>, B: set<SubscriptionAssignment>, nodes: set<NodeId>)
    requires forall n :: n in nodes ==> NodeLoad(A, n) == NodeLoad(B, n)
    ensures LoadSquares(A, nodes) == LoadSquares(B, nodes)
    decreases nodes
  {
    if nodes != {} {
      var n :| n in nodes;
      LoadSquaresSplit(A, nodes, n);
      LoadSquaresSplit(B, nodes, n);
      LoadSquaresAgree(A, B, nodes - {n});
    }
  }

  lemma SquaresOfMovedUnit(hi: int, lo: int)
    requires hi > lo + 1
    ensures (hi - 1) * (hi - 1) + (lo + 1) * (lo + 1) < hi * hi + lo * lo
  {
    assert (hi - 1) * (hi - 1) == hi * hi - 2 * hi + 1;
    assert (lo + 1) * (lo + 1) == lo * lo + 2 * lo + 1;
  }

  /** A transfer from a node at least two heavier than the receiver strictly lowers the load squares. */
  lemma TransferLowersLoadSquares(A: set<SubscriptionAssignment>, nodes: set<NodeId>, from: NodeId, to: NodeId, s: SubscriptionName)
    requires UniquePairs(A) && CanTransfer(A, from, to, s)
    requires from in nodes && to in nodes
    requires NodeLoad(A, from) > NodeLoad(A, to) + 1
    ensures LoadSquares(Transferred(A, from, to, s), nodes) < LoadSquares(A, nodes)
  {
    var B := Transferred(A, from, to, s);
    TransferMovesOneUnitOfLoad(A, from, to, s);
    var _ := TransferredAssignment(A, from, to, s);
    var rest := nodes - {from} - {to};
    LoadSquaresSplit(A, nodes, from);
    LoadSquaresSplit(A, nodes - {from}, to);
    LoadSquaresSplit(B, nodes, from);
    LoadSquaresSplit(B, nodes - {from}, to);
    LoadSquaresAgree(A, B, rest);
    SquaresOfMovedUnit(NodeLoad(A, from), NodeLoad(A, to));
  }

  /** Every node's load lies between two bounds. */
  predicate LoadsWithin(A: set<SubscriptionAssignment>, nodes: set<NodeId>, floor: int, peak: int) {
    forall n :: n in nodes ==> floor <= NodeLoad(A, n) <= peak
  }

  /**
   * One equalization step, from a node at least two heavier than the receiver:
   * counts and uniqueness are kept, the load squares drop, the two loads move
   * by one, and no load leaves the bounds it was in.
   */
  lemma TransferStep(A: set<SubscriptionAssignment>, nodes: set<NodeId>, from: NodeId, to: NodeId, s: SubscriptionName,
                     floor: int, peak: int)
    requires UniquePairs(A) && CanTransfer(A, from, to, s)
    requires from in nodes && to in nodes
    requires NodeLoad(A, from) > NodeLoad(A, to) + 1
    requires LoadsWithin(A, nodes, floor, peak)
    ensures UniquePairs(Transferred(A, from, to, s))
    ensures |Transferred(A, from, to, s)| == |A|
    ensures forall t :: SubscriptionCount(Transferred(A, from, to, s), t) == SubscriptionCount(A, t)
    ensures NodeLoad(Transferred(A, from, to, s), from) == NodeLoad(A, from) - 1
    ensures NodeLoad(Transferred(A, from, to, s), to) == NodeLoad(A, to) + 1
    ensures LoadsWithin(Transferred(A, from, to, s), nodes, floor, peak)
    ensures LoadSquares(Transferred(A, from, to, s), nodes) < LoadSquares(A, nodes)
  {
    TransferKeepsPairsUnique(A, from, to, s);
    TransferPreservesCounts(A, from, to, s);
    TransferMovesOneUnitOfLoad(A, from, to, s);
    TransferLowersLoadSquares(A, nodes, from, to, s);
  }
}
