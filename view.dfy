/**
 * The assignment view that the balancer reads and its transformer updates.
 * Only the set-level effect of each transformer call is modelled: the view
 * holds the known subscriptions, the known consumer nodes and the assignments,
 * and every operation keeps the view's invariant (known endpoints, unique pairs).
 */
module AssignmentViews {
  import opened Assignments

  class AssignmentView {
    var subscriptions: set<SubscriptionName>
    var nodes: set<NodeId>
    var assignments: set<SubscriptionAssignment>

    ghost predicate Valid()
      reads this
    {
      WellFormed(subscriptions, nodes, assignments)
    }

    /** The copy that a transform pass works on; the original view is left as it was. */
    constructor Copy(other: AssignmentView)
      requires other.Valid()
      ensures Valid()
      ensures subscriptions == other.subscriptions && nodes == other.nodes && assignments == other.assignments
    {
      subscriptions := other.subscriptions;
      nodes := other.nodes;
      assignments := other.assignments;
    }

    method AddSubscription(s: SubscriptionName)
      requires Valid()
      modifies this
      ensures Valid()
      ensures subscriptions == old(subscriptions) + {s}
      ensures nodes == old(nodes) && assignments == old(assignments)
    {
      subscriptions := subscriptions + {s};
    }

    /** Forgets a subscription together with all of its assignments. */
    method RemoveSubscription(s: SubscriptionName)
      requires Valid()
      modifies this
      ensures Valid()
      ensures subscriptions == old(subscriptions) - {s}
      ensures nodes == old(nodes)
      ensures assignments == set a | a in old(assignments) && a.subscription != s
    {
      subscriptions := subscriptions - {s};
      assignments := set a | a in assignments && a.subscription != s;
    }

    method AddConsumerNode(n: NodeId)
      requires Valid()
      modifies this
      ensures Valid()
      ensures nodes == old(nodes) + {n}
      ensures subscriptions == old(subscriptions) && assignments == old(assignments)
    {
      nodes := nodes + {n};
    }

    /** Forgets a consumer node together with all of its assignments. */
    method RemoveConsumerNode(n: NodeId)
      requires Valid()
      modifies this
      ensures Valid()
      ensures nodes == old(nodes) - {n}
      ensures subscriptions == old(subscriptions)
      ensures assignments == set a | a in old(assignments) && a.node != n
    {
      nodes := nodes - {n};
      assignments := set a | a in assignments && a.node != n;
    }

    /** Adds an assignment between a known subscription and a known node that do not yet meet. */
    method AddAssignment(a: SubscriptionAssignment)
      requires Valid()
      requires a.subscription in subscriptions && a.node in nodes
      requires a.node !in NodesForSubscription(assignments, a.subscription)
      modifies this
      ensures Valid()
      ensures assignments == old(assignments) + {a}
      ensures subscriptions == old(subscriptions) && nodes == old(nodes)
    {
      forall b | b in assignments && b.subscription == a.subscription ensures b.node in NodesForSubscription(assignments, a.subscription) {
      }
      assignments := assignments + {a};
    }

    method RemoveAssignment(a: SubscriptionAssignment)
      requires Valid()
      modifies this
      ensures Valid()
      ensures assignments == old(assignments) - {a}
      ensures subscriptions == old(subscriptions) && nodes == old(nodes)
    {
      assignments := assignments - {a};
    }

    /** Moves subscription s from node `from` to node `to`, which does not serve it yet. */
    method TransferAssignment(from: NodeId, to: NodeId, s: SubscriptionName)
      requires Valid()
      requires to in nodes
      requires CanTransfer(assignments, from, to, s)
      modifies this
      ensures Valid()
      ensures assignments == Transferred(old(assignments), from, to, s)
      ensures subscriptions == old(subscriptions) && nodes == old(nodes)
    {
      TransferKeepsPairsUnique(assignments, from, to, s);
      var _ := TransferredAssignment(assignments, from, to, s);
      assignments := Transferred(assignments, from, to, s);
    }
  }
}
