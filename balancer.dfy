/**
 * The selective work balancer: one balancing pass turns the previous
 * assignment view, the current subscriptions and the live consumer nodes into
 * a new view, in the phases diff, topology update, minimization, fill and
 * equalization, and reports counters about the pass.
 */
module WorkBalancer {
  import opened Wrappers
  import opened Assignments
  import opened AssignmentViews

  /**
   * The work generator AvailableWork.stream(state, consumersPerSubscription,
   * maxSubscriptionsPerConsumer), taken as a parameter: given the known
   * subscriptions, nodes and assignments and the two limits, the
   * (subscription, node) pairs to add.
   */
  type AvailableWork = (set<SubscriptionName>, set<NodeId>, set<SubscriptionAssignment>, int, int) -> seq<(SubscriptionName, NodeId)>

  /** Pairs between known subscriptions and nodes, none already assigned, none repeated. */
  predicate FreshWork(subscriptions: set<SubscriptionName>, nodes: set<NodeId>, A: set<SubscriptionAssignment>,
                      work: seq<(SubscriptionName, NodeId)>)
  {
    && (forall i :: 0 <= i < |work| ==>
          work[i].0 in subscriptions && work[i].1 in nodes && work[i].1 !in NodesForSubscription(A, work[i].0))
    && (forall i, j :: 0 <= i < j < |work| ==> work[i] != work[j])
  }

  /** The auto-assigned assignments that a list of proposed pairs adds. */
  function WorkAssignments(work: seq<(SubscriptionName, NodeId)>): set<SubscriptionAssignment> {
    set i | 0 <= i < |work| :: SubscriptionAssignment(work[i].0, work[i].1, true)
  }

  /** What the balancer relies on from the work generator: on every well-formed view it proposes fresh work. */
  ghost predicate ProducesFreshWork(availableWork: AvailableWork) {
    forall S, N, A, perSubscription, perNode ::
      WellFormed(S, N, A) ==> FreshWork(S, N, A, availableWork(S, N, A, perSubscription, perNode))
  }

  /** The members of a set that a list does not contain. */
  function Outside<T(==,!new)>(known: set<T>, xs: seq<T>): set<T> {
    set x | x in known && x !in xs
  }

  /** The entries of a list that a set does not contain, in order and with their repeats. */
  function Absent<T(==,!new)>(xs: seq<T>, known: set<T>): (r: seq<T>)
    ensures forall x :: multiset(r)[x] == if x in known then 0 else multiset(xs)[x]
    ensures |r| <= |xs|
  {
    if xs == [] then []
    else
      assert xs == [xs[0]] + xs[1..];
      (if xs[0] in known then [] else [xs[0]]) + Absent(xs[1..], known)
  }

  function FindRemovedSubscriptions(viewSubscriptions: set<SubscriptionName>, subscriptions: seq<SubscriptionName>): set<SubscriptionName> {
    Outside(viewSubscriptions, subscriptions)
  }

  function FindInactiveConsumers(viewNodes: set<NodeId>, activeConsumers: seq<NodeId>): set<NodeId> {
    Outside(viewNodes, activeConsumers)
  }

  function FindNewSubscriptions(viewSubscriptions: set<SubscriptionName>, subscriptions: seq<SubscriptionName>): seq<SubscriptionName> {
    Absent(subscriptions, viewSubscriptions)
  }

  function FindNewConsumers(viewNodes: set<NodeId>, activeConsumers: seq<NodeId>): seq<NodeId> {
    Absent(activeConsumers, viewNodes)
  }

  /**
   * The four diffs are set differences: removing the removed ones from the
   * view's set and adding the new ones gives exactly the input's set; removed
   * and new are disjoint, and the new lists keep every repeat of the input.
   */
  lemma DiffIsSetDifference<T(!new)>(known: set<T>, xs: seq<T>)
    ensures forall x :: x in Outside(known, xs) <==> x in known && x !in xs
    ensures forall x :: x in Absent(xs, known) <==> x in xs && x !in known
    ensures forall x :: x !in known ==> multiset(Absent(xs, known))[x] == multiset(xs)[x]
    ensures known - Outside(known, xs) + (set x | x in Absent(xs, known)) == set x | x in xs
    ensures Outside(known, xs) !! set x | x in Absent(xs, known)
  {
    var created := Absent(xs, known);
    forall x ensures x in created <==> x in xs && x !in known {
      assert x in created <==> multiset(created)[x] > 0;
      assert x in xs <==> multiset(xs)[x] > 0;
    }
  }

  /**
   * The sum over the list, repeats included, of the replication factor minus
   * the subscription's assignment count. Not clamped at zero.
   */
  function CountMissingResources(subscriptions: seq<SubscriptionName>, A: set<SubscriptionAssignment>, consumersPerSubscription: int): (missing: int)
    ensures (forall s :: s in subscriptions ==> SubscriptionCount(A, s) <= consumersPerSubscription) ==>
              missing >= 0 &&
              (missing == 0 <==> forall s :: s in subscriptions ==> SubscriptionCount(A, s) == consumersPerSubscription)
    ensures (forall s :: s in subscriptions ==> SubscriptionCount(A, s) >= consumersPerSubscription) ==> missing <= 0
  {
    if subscriptions == [] then 0
    else
      assert forall s :: s in subscriptions[1..] ==> s in subscriptions;
      assert forall s :: s in subscriptions ==> s == subscriptions[0] || s in subscriptions[1..];
      (consumersPerSubscription - SubscriptionCount(A, subscriptions[0]))
        + CountMissingResources(subscriptions[1..], A, consumersPerSubscription)
  }

  /** Repeats in the list are counted once per occurrence: the sum splits over concatenation. */
  lemma {:induction false} MissingResourcesSplit(xs: seq<SubscriptionName>, ys: seq<SubscriptionName>, A: set<SubscriptionAssignment>, consumersPerSubscription: int)
    ensures CountMissingResources(xs + ys, A, consumersPerSubscription)
         == CountMissingResources(xs, A, consumersPerSubscription) + CountMissingResources(ys, A, consumersPerSubscription)
  {
    if xs != [] {
      assert (xs + ys)[0] == xs[0];
      assert (xs + ys)[1..] == xs[1..] + ys;
      MissingResourcesSplit(xs[1..], ys, A, consumersPerSubscription);
    } else {
      assert xs + ys == ys;
    }
  }

  /** Two pins of one subscription with a replication factor of one: the counter comes out negative. */
  lemma MissingResourcesCanBeNegative()
    ensures CountMissingResources(["orders"],
              {SubscriptionAssignment("orders", "node-1", false), SubscriptionAssignment("orders", "node-2", false)}, 1) == -1
  {
    var A := {SubscriptionAssignment("orders", "node-1", false), SubscriptionAssignment("orders", "node-2", false)};
    assert AssignmentsForSubscription(A, "orders") == A;
    assert ["orders"][1..] == [];
  }

  function Min(x: int, y: int): int { if x <= y then x else y }
  function Max(x: int, y: int): int { if x <= y then y else x }

  /**
   * What findRedundantAssignments may pick for subscription s: auto-assigned
   * assignments of s only, as many as the surplus above the replication factor
   * or all of them when there are fewer.
   */
  predicate IsRedundantSelection(A: set<SubscriptionAssignment>, s: SubscriptionName, consumersPerSubscription: int,
                                 redundant: set<SubscriptionAssignment>)
  {
    && redundant <= AutoAssignmentsForSubscription(A, s)
    && |redundant| == if SubscriptionCount(A, s) <= consumersPerSubscription then 0
                      else Min(SubscriptionCount(A, s) - consumersPerSubscription, |AutoAssignmentsForSubscription(A, s)|)
  }

  /** The count a subscription is left with by minimization. */
  function MinimizedCount(A: set<SubscriptionAssignment>, s: SubscriptionName, consumersPerSubscription: int): int {
    if SubscriptionCount(A, s) <= consumersPerSubscription then SubscriptionCount(A, s)
    else Max(consumersPerSubscription, |ManualAssignmentsForSubscription(A, s)|)
  }

  /**
   * Removing a redundant selection: pins are all kept, the count drops to the
   * larger of the replication factor and the number of pins (or stays when it
   * was not above the factor), and no other subscription is touched.
   */
  lemma RemovingRedundantSelection(A: set<SubscriptionAssignment>, s: SubscriptionName, consumersPerSubscription: int,
                                   redundant: set<SubscriptionAssignment>)
    requires IsRedundantSelection(A, s, consumersPerSubscription, redundant)
    ensures SubscriptionCount(A - redundant, s) == MinimizedCount(A, s, consumersPerSubscription)
    ensures SubscriptionCount(A, s) > consumersPerSubscription ==> SubscriptionCount(A - redundant, s) >= consumersPerSubscription
    ensures SubscriptionCount(A, s) <= consumersPerSubscription ==> A - redundant == A
    ensures ManualAssignmentsForSubscription(A - redundant, s) == ManualAssignmentsForSubscription(A, s)
    ensures forall t :: t != s ==> AssignmentsForSubscription(A - redundant, t) == AssignmentsForSubscription(A, t)
  {
    assert AssignmentsForSubscription(A - redundant, s) == AssignmentsForSubscription(A, s) - redundant;
    assert AssignmentsForSubscription(A, s) == AssignmentsForSubscription(A - redundant, s) + redundant;
    CountIsAutoPlusManual(A, s);
    if SubscriptionCount(A, s) <= consumersPerSubscription {
      assert redundant == {};
    }
  }

  /** The assignments that survive the topology update: neither endpoint was removed. */
  function Surviving(A: set<SubscriptionAssignment>, removedSubscriptions: set<SubscriptionName>,
                     inactiveConsumers: set<NodeId>): set<SubscriptionAssignment>
  {
    set a | a in A && a.subscription !in removedSubscriptions && a.node !in inactiveConsumers
  }

  /** What a balancing pass returns: the new view and the counters about the pass. */
  datatype WorkBalancingResult = WorkBalancingResult(
    state: AssignmentView,
    subscriptionsCount: int,
    removedSubscriptionsCount: int,
    createdSubscriptionsCount: int,
    consumersCount: int,
    inactiveConsumersCount: int,
    createdConsumersCount: int,
    missingResources: int)

  class SelectiveWorkBalancer {
    const consumersPerSubscription: int
    const maxSubscriptionsPerConsumer: int

    constructor (consumersPerSubscription: int, maxSubscriptionsPerConsumer: int)
      ensures this.consumersPerSubscription == consumersPerSubscription
      ensures this.maxSubscriptionsPerConsumer == maxSubscriptionsPerConsumer
    {
      this.consumersPerSubscription := consumersPerSubscription;
      this.maxSubscriptionsPerConsumer := maxSubscriptionsPerConsumer;
    }

    /**
     * One balancing pass. The previous view is not changed: the new view is a
     * fresh one whose subscriptions and nodes are exactly those of the inputs,
     * whose loads are balanced whenever equalization ran, and the counters are
     * the raw list sizes and the unclamped missing-resources sum.
     */
    method Balance(subscriptions: seq<SubscriptionName>, activeConsumerNodes: seq<NodeId>,
                   currentState: AssignmentView, availableWork: AvailableWork)
      returns (result: WorkBalancingResult, ghost minimized: set<SubscriptionAssignment>)
      requires currentState.Valid()
      requires ProducesFreshWork(availableWork)
      ensures fresh(result.state) && result.state.Valid()
      ensures result.state.subscriptions == set s | s in subscriptions
      ensures result.state.nodes == set n | n in activeConsumerNodes
      ensures result.subscriptionsCount == |subscriptions|
      ensures result.removedSubscriptionsCount == |FindRemovedSubscriptions(currentState.subscriptions, subscriptions)|
      ensures result.createdSubscriptionsCount == |FindNewSubscriptions(currentState.subscriptions, subscriptions)|
      ensures result.consumersCount == |activeConsumerNodes|
      ensures result.inactiveConsumersCount == |FindInactiveConsumers(currentState.nodes, activeConsumerNodes)|
      ensures result.createdConsumersCount == |FindNewConsumers(currentState.nodes, activeConsumerNodes)|
      ensures result.missingResources == CountMissingResources(subscriptions, result.state.assignments, consumersPerSubscription)
      ensures |set s | s in subscriptions| > 1 && activeConsumerNodes != [] ==>
                Balanced(result.state.assignments, result.state.nodes)
      ensures var surviving := Surviving(currentState.assignments, FindRemovedSubscriptions(currentState.subscriptions, subscriptions),
                                         FindInactiveConsumers(currentState.nodes, activeConsumerNodes));
              && minimized <= surviving
              && (forall a :: a in surviving && a !in minimized ==> a.autoAssigned)
              && (forall s :: SubscriptionCount(minimized, s) == MinimizedCount(surviving, s, consumersPerSubscription))
              && (forall s :: SubscriptionCount(result.state.assignments, s) >= MinimizedCount(surviving, s, consumersPerSubscription))
      ensures var work := availableWork(result.state.subscriptions, result.state.nodes, minimized,
                                        consumersPerSubscription, maxSubscriptionsPerConsumer);
              forall s :: SubscriptionCount(result.state.assignments, s) == SubscriptionCount(minimized + WorkAssignments(work), s)
    {
      var removedSubscriptions := FindRemovedSubscriptions(currentState.subscriptions, subscriptions);
      var inactiveConsumers := FindInactiveConsumers(currentState.nodes, activeConsumerNodes);
      var newSubscriptions := FindNewSubscriptions(currentState.subscriptions, subscriptions);
      var newConsumers := FindNewConsumers(currentState.nodes, activeConsumerNodes);
      DiffIsSetDifference(currentState.subscriptions, subscriptions);
      DiffIsSetDifference(currentState.nodes, activeConsumerNodes);

      var balancedState;
      balancedState, minimized := BalanceView(currentState, removedSubscriptions, inactiveConsumers,
                                       newSubscriptions, newConsumers, availableWork);
      assert activeConsumerNodes != [] ==> activeConsumerNodes[0] in balancedState.nodes;
      forall s ensures SubscriptionCount(minimized, s) <= SubscriptionCount(balancedState.assignments, s) {
        var work := availableWork(balancedState.subscriptions, balancedState.nodes, minimized,
                                  consumersPerSubscription, maxSubscriptionsPerConsumer);
        CountGrowsWithSet(minimized, minimized + WorkAssignments(work), s);
      }

      result := WorkBalancingResult(
        balancedState,
        |subscriptions|, |removedSubscriptions|, |newSubscriptions|,
        |activeConsumerNodes|, |inactiveConsumers|, |newConsumers|,
        CountMissingResources(subscriptions, balancedState.assignments, consumersPerSubscription));
    }

    /**
     * The transform pass on a copy of the current view: topology update,
     * minimization, fill and equalization, in that order.
     */
    method BalanceView(currentState: AssignmentView,
                       removedSubscriptions: set<SubscriptionName>, inactiveConsumers: set<NodeId>,
                       newSubscriptions: seq<SubscriptionName>, newConsumers: seq<NodeId>,
                       availableWork: AvailableWork)
      returns (state: AssignmentView, ghost minimized: set<SubscriptionAssignment>)
      requires currentState.Valid()
      requires ProducesFreshWork(availableWork)
      ensures fresh(state) && state.Valid()
      ensures state.subscriptions == currentState.subscriptions - removedSubscriptions + (set s | s in newSubscriptions)
      ensures state.nodes == currentState.nodes - inactiveConsumers + (set n | n in newConsumers)
      ensures var surviving := Surviving(currentState.assignments, removedSubscriptions, inactiveConsumers);
              && minimized <= surviving
              && (forall a :: a in surviving && a !in minimized ==> a.autoAssigned)
              && (forall s :: SubscriptionCount(minimized, s) == MinimizedCount(surviving, s, consumersPerSubscription))
      ensures var work := availableWork(state.subscriptions, state.nodes, minimized, consumersPerSubscription, maxSubscriptionsPerConsumer);
              forall s :: SubscriptionCount(state.assignments, s) == SubscriptionCount(minimized + WorkAssignments(work), s)
      ensures |state.subscriptions| > 1 && state.nodes != {} ==> Balanced(state.assignments, state.nodes)
    {
      ghost var surviving := Surviving(currentState.assignments, removedSubscriptions, inactiveConsumers);
      state := new AssignmentView.Copy(currentState);

      var pendingSubscriptions := removedSubscriptions;
      while pendingSubscriptions != {}
        invariant state.Valid()
        invariant state.subscriptions == currentState.subscriptions - (removedSubscriptions - pendingSubscriptions)
        invariant state.nodes == currentState.nodes
        invariant state.assignments == set a | a in currentState.assignments && a.subscription !in removedSubscriptions - pendingSubscriptions
        decreases pendingSubscriptions
      {
        var s :| s in pendingSubscriptions;
        state.RemoveSubscription(s);
        pendingSubscriptions := pendingSubscriptions - {s};
      }

      var pendingNodes := inactiveConsumers;
      while pendingNodes != {}
        invariant state.Valid()
        invariant state.subscriptions == currentState.subscriptions - removedSubscriptions
        invariant state.nodes == currentState.nodes - (inactiveConsumers - pendingNodes)
        invariant state.assignments == Surviving(currentState.assignments, removedSubscriptions, inactiveConsumers - pendingNodes)
        decreases pendingNodes
      {
        var n :| n in pendingNodes;
        state.RemoveConsumerNode(n);
        pendingNodes := pendingNodes - {n};
      }

      for i := 0 to |newSubscriptions|
        invariant state.Valid()
        invariant state.subscriptions == currentState.subscriptions - removedSubscriptions + (set j | 0 <= j < i :: newSubscriptions[j])
        invariant state.nodes == currentState.nodes - inactiveConsumers
        invariant state.assignments == surviving
      {
        state.AddSubscription(newSubscriptions[i]);
      }
      assert (set j | 0 <= j < |newSubscriptions| :: newSubscriptions[j]) == set s | s in newSubscriptions;

      for i := 0 to |newConsumers|
        invariant state.Valid()
        invariant state.subscriptions == currentState.subscriptions - removedSubscriptions + (set s | s in newSubscriptions)
        invariant state.nodes == currentState.nodes - inactiveConsumers + (set j | 0 <= j < i :: newConsumers[j])
        invariant state.assignments == surviving
      {
        state.AddConsumerNode(newConsumers[i]);
      }
      assert (set j | 0 <= j < |newConsumers| :: newConsumers[j]) == set n | n in newConsumers;

      MinimizeWorkload(state);
      minimized := state.assignments;
      forall s ensures SubscriptionCount(minimized, s) == MinimizedCount(surviving, s, consumersPerSubscription) {
        if s !in state.subscriptions {
          assert AssignmentsForSubscription(surviving, s) == {};
          assert AssignmentsForSubscription(minimized, s) == {};
        }
      }

      FillWorkload(state, availableWork);

      EqualizeWorkload(state);
    }

    /**
     * Drops the surplus above the replication factor from every subscription,
     * auto-assigned assignments only: the pins stay, and each subscription ends
     * with the count MinimizedCount gives.
     */
    method MinimizeWorkload(state: AssignmentView)
      requires state.Valid()
      modifies state
      ensures state.Valid()
      ensures state.subscriptions == old(state.subscriptions) && state.nodes == old(state.nodes)
      ensures state.assignments <= old(state.assignments)
      ensures forall a :: a in old(state.assignments) && a !in state.assignments ==> a.autoAssigned
      ensures forall s :: s in state.subscriptions ==>
                SubscriptionCount(state.assignments, s) == MinimizedCount(old(state.assignments), s, consumersPerSubscription)
      ensures forall s :: s in state.subscriptions && SubscriptionCount(old(state.assignments), s) <= consumersPerSubscription ==>
                AssignmentsForSubscription(state.assignments, s) == AssignmentsForSubscription(old(state.assignments), s)
    {
      var pending := state.subscriptions;
      while pending != {}
        invariant state.Valid()
        invariant state.subscriptions == old(state.subscriptions) && state.nodes == old(state.nodes)
        invariant pending <= state.subscriptions
        invariant state.assignments <= old(state.assignments)
        invariant forall a :: a in old(state.assignments) && a !in state.assignments ==> a.autoAssigned && a.subscription !in pending
        invariant forall s :: s in pending ==>
                    AssignmentsForSubscription(state.assignments, s) == AssignmentsForSubscription(old(state.assignments), s)
        invariant forall s :: s in state.subscriptions && s !in pending ==>
                    SubscriptionCount(state.assignments, s) == MinimizedCount(old(state.assignments), s, consumersPerSubscription)
        invariant forall s :: s in state.subscriptions && s !in pending && SubscriptionCount(old(state.assignments), s) <= consumersPerSubscription ==>
                    AssignmentsForSubscription(state.assignments, s) == AssignmentsForSubscription(old(state.assignments), s)
        decreases pending
      {
        var s :| s in pending;
        var redundant := FindRedundantAssignments(state, s);
        ghost var before := state.assignments;
        RemovingRedundantSelection(before, s, consumersPerSubscription, redundant);

        var toRemove := redundant;
        while toRemove != {}
          invariant state.Valid()
          invariant state.subscriptions == old(state.subscriptions) && state.nodes == old(state.nodes)
          invariant toRemove <= redundant
          invariant state.assignments == before - (redundant - toRemove)
          decreases toRemove
        {
          var a :| a in toRemove;
          state.RemoveAssignment(a);
          toRemove := toRemove - {a};
        }
        assert state.assignments == before - redundant;
        pending := pending - {s};
      }
    }

    /**
     * Picks the surplus auto-assigned assignments of subscription s, visiting
     * its assignments in an unspecified order and counting the surplus down.
     */
    method FindRedundantAssignments(state: AssignmentView, s: SubscriptionName) returns (redundant: set<SubscriptionAssignment>)
      ensures IsRedundantSelection(state.assignments, s, consumersPerSubscription, redundant)
    {
      var diff := SubscriptionCount(state.assignments, s) - consumersPerSubscription;
      redundant := {};
      if diff > 0 {
        ghost var auto := AutoAssignmentsForSubscription(state.assignments, s);
        var unvisited := AssignmentsForSubscription(state.assignments, s);
        while diff > 0 && unvisited != {}
          invariant unvisited <= AssignmentsForSubscription(state.assignments, s)
          invariant redundant == set a | a in auto && a !in unvisited
          invariant diff == SubscriptionCount(state.assignments, s) - consumersPerSubscription - |redundant|
          invariant diff >= 0
          decreases unvisited
        {
          var a :| a in unvisited;
          unvisited := unvisited - {a};
          if a.autoAssigned {
            redundant := redundant + {a};
            diff := diff - 1;
          }
        }
        if diff == 0 {
          SubsetCardinality(redundant, auto);
        } else {
          assert redundant == auto;
        }
      }
    }

    /** Adds every pair the work generator proposes, as an auto-assigned assignment. */
    method FillWorkload(state: AssignmentView, availableWork: AvailableWork)
      requires state.Valid()
      requires ProducesFreshWork(availableWork)
      modifies state
      ensures state.Valid()
      ensures state.subscriptions == old(state.subscriptions) && state.nodes == old(state.nodes)
      ensures var work := availableWork(old(state.subscriptions), old(state.nodes), old(state.assignments),
                                        consumersPerSubscription, maxSubscriptionsPerConsumer);
              state.assignments == old(state.assignments) + WorkAssignments(work)
    {
      var work := availableWork(state.subscriptions, state.nodes, state.assignments,
                                consumersPerSubscription, maxSubscriptionsPerConsumer);
      assert FreshWork(state.subscriptions, state.nodes, state.assignments, work);
      for i := 0 to |work|
        invariant state.Valid()
        invariant state.subscriptions == old(state.subscriptions) && state.nodes == old(state.nodes)
        invariant state.assignments == old(state.assignments) + set j | 0 <= j < i :: SubscriptionAssignment(work[j].0, work[j].1, true)
        invariant forall j :: i <= j < |work| ==> work[j].1 !in NodesForSubscription(state.assignments, work[j].0)
      {
        var added := SubscriptionAssignment(work[i].0, work[i].1, true);
        forall j | i < j < |work|
          ensures work[j].1 !in NodesForSubscription(state.assignments + {added}, work[j].0)
        {
          NodesForSubscriptionAfterAdd(state.assignments, added, work[j].0);
        }
        state.AddAssignment(added);
        assert (set j | 0 <= j < i + 1 :: SubscriptionAssignment(work[j].0, work[j].1, true))
            == (set j | 0 <= j < i :: SubscriptionAssignment(work[j].0, work[j].1, true)) + {added};
      }
      assert WorkAssignments(work) == set j | 0 <= j < |work| :: SubscriptionAssignment(work[j].0, work[j].1, true);
    }

    /**
     * Moves subscriptions from the most- to the least-loaded node until a pass
     * moves nothing. Every subscription keeps its count, no node's load leaves
     * the range of loads before the phase, and when the phase runs (more than
     * one subscription, at least one node) the loads end balanced.
     */
    method EqualizeWorkload(state: AssignmentView)
      requires state.Valid()
      modifies state
      ensures state.Valid()
      ensures state.subscriptions == old(state.subscriptions) && state.nodes == old(state.nodes)
      ensures |state.assignments| == |old(state.assignments)|
      ensures forall s :: SubscriptionCount(state.assignments, s) == SubscriptionCount(old(state.assignments), s)
      ensures LoadsWithin(state.assignments, state.nodes,
                          MinLoad(old(state.assignments), state.nodes), MaxLoad(old(state.assignments), state.nodes))
      ensures |state.subscriptions| > 1 && state.nodes != {} ==> Balanced(state.assignments, state.nodes)
      ensures !(|state.subscriptions| > 1 && state.nodes != {}) ==> state.assignments == old(state.assignments)
    {
      if |state.subscriptions| > 1 && state.nodes != {} {
        ghost var nodes := state.nodes;
        ghost var initial := state.assignments;
        ghost var floor := MinLoad(initial, nodes);
        ghost var peak := MaxLoad(initial, nodes);
        var transferred := true;
        while transferred
          invariant state.Valid()
          invariant state.subscriptions == old(state.subscriptions) && state.nodes == nodes
          invariant |state.assignments| == |initial|
          invariant forall s :: SubscriptionCount(state.assignments, s) == SubscriptionCount(initial, s)
          invariant LoadsWithin(state.assignments, nodes, floor, peak)
          invariant !transferred ==> Balanced(state.assignments, nodes)
          decreases LoadSquares(state.assignments, nodes), if transferred then 1 else 0
        {
          ghost var passStart := state.assignments;
          var maxLoaded := MaxLoadedConsumerNode(state);
          var minLoaded := MinLoadedConsumerNode(state);
          var maxLoad: int := NodeLoad(state.assignments, maxLoaded);
          var minLoad: int := NodeLoad(state.assignments, minLoaded);
          transferred := TransferWhileUnbalanced(state, maxLoaded, minLoaded, maxLoad, minLoad, floor, peak);

          if !transferred {
            ExtremesCloseMeansBalanced(state.assignments, nodes, maxLoaded, minLoaded);
          }
        }
      }
    }

    /**
     * The inner loop of one equalization pass: while the two counters differ by
     * more than one, moves one subscription that maxLoaded serves and minLoaded
     * does not, and stops early when there is none. The counters track the two
     * nodes' loads; each move lowers the load squares.
     */
    method TransferWhileUnbalanced(state: AssignmentView, maxLoaded: NodeId, minLoaded: NodeId,
                                   maxLoad0: int, minLoad0: int, ghost floor: int, ghost peak: int)
      returns (transferred: bool)
      requires state.Valid()
      requires maxLoaded in state.nodes && minLoaded in state.nodes
      requires maxLoad0 == NodeLoad(state.assignments, maxLoaded) && minLoad0 == NodeLoad(state.assignments, minLoaded)
      requires LoadsWithin(state.assignments, state.nodes, floor, peak)
      modifies state
      ensures state.Valid()
      ensures state.subscriptions == old(state.subscriptions) && state.nodes == old(state.nodes)
      ensures |state.assignments| == |old(state.assignments)|
      ensures forall s :: SubscriptionCount(state.assignments, s) == SubscriptionCount(old(state.assignments), s)
      ensures LoadsWithin(state.assignments, state.nodes, floor, peak)
      ensures transferred ==> LoadSquares(state.assignments, state.nodes) < LoadSquares(old(state.assignments), state.nodes)
      ensures !transferred ==> state.assignments == old(state.assignments)
      ensures !transferred ==> NodeLoad(state.assignments, maxLoaded) <= NodeLoad(state.assignments, minLoaded) + 1
    {
      ghost var nodes := state.nodes;
      ghost var initial := state.assignments;
      var maxLoad, minLoad := maxLoad0, minLoad0;
      transferred := false;
      while maxLoad > minLoad + 1
        invariant state.Valid()
        invariant state.subscriptions == old(state.subscriptions) && state.nodes == nodes
        invariant |state.assignments| == |initial|
        invariant forall s :: SubscriptionCount(state.assignments, s) == SubscriptionCount(initial, s)
        invariant LoadsWithin(state.assignments, nodes, floor, peak)
        invariant maxLoad == NodeLoad(state.assignments, maxLoaded) && minLoad == NodeLoad(state.assignments, minLoaded)
        invariant !transferred ==> state.assignments == initial
        invariant transferred ==> LoadSquares(state.assignments, nodes) < LoadSquares(initial, nodes)
        decreases maxLoad - minLoad
      {
        var subscription := SubscriptionForTransfer(state, maxLoaded, minLoaded);
        if subscription.Some? {
          var s := subscription.value;
          TransferStep(state.assignments, nodes, maxLoaded, minLoaded, s, floor, peak);
          state.TransferAssignment(maxLoaded, minLoaded, s);
          transferred := true;
        } else {
          // Dead branch: by the pigeonhole bound a node more than one heavier
          // always has a subscription the lighter node lacks.
          CoveredNodeIsNotHeavier(state.assignments, maxLoaded, minLoaded);
          assert false;
          break;
        }
        maxLoad := maxLoad - 1;
        minLoad := minLoad + 1;
      }
    }

    /** Some node of greatest load (java.util.stream max; which one on a tie is not modelled). */
    method MaxLoadedConsumerNode(state: AssignmentView) returns (maxLoaded: NodeId)
      requires state.nodes != {}
      ensures IsMaxLoaded(state.assignments, state.nodes, maxLoaded)
    {
      MaxLoadedExists(state.assignments, state.nodes);
      maxLoaded :| maxLoaded in state.nodes && IsMaxLoaded(state.assignments, state.nodes, maxLoaded);
    }

    /** Some node of least load (java.util.stream min; which one on a tie is not modelled). */
    method MinLoadedConsumerNode(state: AssignmentView) returns (minLoaded: NodeId)
      requires state.nodes != {}
      ensures IsMinLoaded(state.assignments, state.nodes, minLoaded)
    {
      MinLoadedExists(state.assignments, state.nodes);
      minLoaded :| minLoaded in state.nodes && IsMinLoaded(state.assignments, state.nodes, minLoaded);
    }

    /**
     * Some subscription served by maxLoaded and not by minLoaded, or None when
     * every subscription of maxLoaded is also served by minLoaded.
     */
    method SubscriptionForTransfer(state: AssignmentView, maxLoaded: NodeId, minLoaded: NodeId)
      returns (subscription: Option<SubscriptionName>)
      ensures subscription.Some? ==> CanTransfer(state.assignments, maxLoaded, minLoaded, subscription.value)
      ensures subscription.None? ==>
                forall s :: s in SubscriptionsForNode(state.assignments, maxLoaded) ==> minLoaded in NodesForSubscription(state.assignments, s)
    {
      if exists s :: s in SubscriptionsForNode(state.assignments, maxLoaded) && minLoaded !in NodesForSubscription(state.assignments, s) {
        var s :| s in SubscriptionsForNode(state.assignments, maxLoaded) && minLoaded !in NodesForSubscription(state.assignments, s);
        subscription := Some(s);
      } else {
        subscription := None;
      }
    }
  }
}
