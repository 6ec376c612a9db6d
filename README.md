# Selective work balancer of the Hermes consumer supervisor, in Dafny

This project models how the Hermes consumer supervisor assigns subscriptions to
consumer nodes. The model covers `SelectiveWorkBalancer`. One call of `balance`
takes three inputs:

- the current subscriptions;
- the live consumer nodes;
- the previous assignment view.

It builds a new view in five phases, in order:

1. **Diff.** Compute which subscriptions were removed, which nodes went inactive, and which subscriptions and nodes are new.
2. **Topology update.** Forget the removed subscriptions and inactive nodes, together with their assignments. Register the new ones.
3. **Minimization.** For each subscription, drop auto-assigned assignments above the replication factor `consumersPerSubscription`.
4. **Fill.** Add the pairs that the work generator proposes.
5. **Equalization.** Move subscriptions from the most-loaded node to the least-loaded node, one at a time.

The call then reports counters about the pass.

Files and modules:

- `assignments.dfy`, module `Assignments`. The value types: `SubscriptionAssignment` holds a subscription, a node and the `autoAssigned` flag. It also holds pure queries over a set of assignments (count per subscription, load per node, who serves whom). The lemmas here carry the proofs: a transfer preserves counts and uniqueness, a pigeonhole argument, and a sum-of-squared-loads measure that each transfer lowers. Module `Wrappers` holds `Option`.
- `view.dfy`, module `AssignmentViews`. Class `AssignmentView` is the live view that the transformer changes. Each transformer call is a method, and every method keeps `Valid()`. `Valid()` means that every assignment names a known subscription and a known node, and no (subscription, node) pair occurs twice.
- `balancer.dfy`, module `WorkBalancer`. Class `SelectiveWorkBalancer` holds the two configuration constants and the imperative phases. The diff functions and the missing-resources sum are module-level functions.

Modelling decisions:

- **Order and tie-breaking.** `SelectiveWorkBalancer` leaves some choices to iteration order:
  - which node `Stream.max` or `Stream.min` picks on a tie;
  - which subscription `findAny` picks;
  - the order in which `findRedundantAssignments` visits a subscription's assignments.

  Each is modelled as "some element satisfying the predicate", using `:|`. Every property is proved for any such choice.
- **Work generator.** `AvailableWork.stream` is not part of this model. It is a function-typed parameter, applied to the view after minimization and to the two limits. `ProducesFreshWork` states what the balancer relies on: on a well-formed view, every proposed pair has a known subscription and a known node, the pair is not already assigned, and no pair is repeated. Each pair is added as an auto-assigned assignment.
- **Transfer.** The view's `transferAssignment` is not part of this model either. It is modelled by its set-level effect (`Assignments.Transferred`): the (s, from) assignment is removed and an auto-assigned (s, to) assignment is added. Nothing in the model depends on the flag of the added assignment. Equalization can therefore move operator pins, and no property claims that pins survive it.
- **Diff results.** `findRemovedSubscriptions` and `findInactiveConsumers` filter a set of the view. Their lists have no repeats, so they are modelled as sets of the same size. `findNewSubscriptions` and `findNewConsumers` filter the input lists. They are modelled as sequences that keep every repeat.
- **Inner loop.** The inner `while` loop of `equalizeWorkload` is the separate method `TransferWhileUnbalanced`, so each proof stays small. The outer `do … while (transferred)` loop stays in `EqualizeWorkload`.
- **Counters.** The missing-resources counter is the unclamped sum of `consumersPerSubscription − count` over the input list, repeats included. It is negative when pins exceed the factor (`MissingResourcesCanBeNegative`). Repeats in the input lists are kept: adding a subscription twice changes nothing, and the counters report raw list sizes.
- **Balance claim.** The equalization claim holds for all nodes, including nodes with no assignments. The model also proves that a pass is never blocked by the no-duplicate-pair rule. Whenever one node is heavier than another, some subscription on the heavier node is absent from the lighter one (`HeavierNodeHasTransferCandidate`, from the pigeonhole bound `CoveredNodeIsNotHeavier`). So when equalization runs, the phase always ends with every two loads within one of each other. The `else break` branch of the inner loop (lines 120-123 of `SelectiveWorkBalancer.java`) is dead code. Inside `while (maxLoad > minLoad + 1)` the counters are the true loads, so a candidate always exists and the branch is never taken. `TransferWhileUnbalanced` keeps the branch and marks it with `assert false`.

## Model

| member | source | states |
|---|---|---|
| `WorkBalancer.SelectiveWorkBalancer.Balance` | hermes-consumers/src/main/java/pl/allegro/tech/hermes/consumers/supervisor/workload/selective/SelectiveWorkBalancer.java:29-48 | The new view is fresh and valid; the previous view is untouched. Its subscriptions are exactly the input's, and its nodes exactly the active nodes. Let the surviving assignments be the previous ones whose subscription and node were both kept. The minimized set lies inside them, drops only auto-assigned ones, and leaves each subscription at `MinimizedCount`. Every subscription's final count equals its count in the minimized set plus the proposed work, so it is never below `MinimizedCount`. When there is more than one distinct subscription and at least one node, every two node loads differ by at most one. The counters are the raw list sizes, the diff sizes, and the unclamped missing-resources sum over the final view. |
| `WorkBalancer.SelectiveWorkBalancer.BalanceView` | hermes-consumers/src/main/java/pl/allegro/tech/hermes/consumers/supervisor/workload/selective/SelectiveWorkBalancer.java:50-65 | The transform pass runs on a copy. Subscriptions become view − removed + new, and nodes become view − inactive + new. The minimized set (a ghost result) is a subset of the surviving assignments (`Surviving`). Only auto-assigned ones are missing from it, and each subscription has `MinimizedCount` of the surviving set. Each subscription's final count is its count in minimized + `WorkAssignments` of the work proposed for the minimized view. The result is valid, and it is balanced whenever equalization runs. |
| `WorkBalancer.DiffIsSetDifference` | hermes-consumers/src/main/java/pl/allegro/tech/hermes/consumers/supervisor/workload/selective/SelectiveWorkBalancer.java:147-163 | For `FindRemovedSubscriptions` and `FindInactiveConsumers` (both `Outside`, lines 147-154) and `FindNewSubscriptions` and `FindNewConsumers` (both `Absent`, lines 156-163): removed/inactive = members of the view's set absent from the input list. New = input entries absent from the view's set, with each repeat kept. Removed and new are disjoint. View set − removed + new = the set of the input list. |
| `WorkBalancer.Absent` | hermes-consumers/src/main/java/pl/allegro/tech/hermes/consumers/supervisor/workload/selective/SelectiveWorkBalancer.java:156-163 | The filter behind `FindNewSubscriptions` and `FindNewConsumers`: each element occurs in the result as often as in the input list when it is not in the view's set, and not at all otherwise. The result is no longer than the input. |
| `WorkBalancer.SelectiveWorkBalancer.MinimizeWorkload` | hermes-consumers/src/main/java/pl/allegro/tech/hermes/consumers/supervisor/workload/selective/SelectiveWorkBalancer.java:67-72 | Only assignments are removed, and every removed one is auto-assigned, so all pins stay. Each subscription ends with `MinimizedCount`: unchanged when its count ≤ R, otherwise max(R, number of pins). A subscription with count ≤ R keeps exactly its assignments. Subscriptions and nodes are unchanged. |
| `WorkBalancer.SelectiveWorkBalancer.FindRedundantAssignments` | hermes-consumers/src/main/java/pl/allegro/tech/hermes/consumers/supervisor/workload/selective/SelectiveWorkBalancer.java:74-89 | The selection holds the subscription's auto-assigned assignments only. Its size is 0 when count ≤ R, and otherwise min(count − R, number of auto-assigned ones), whatever order the assignments are visited in. |
| `WorkBalancer.RemovingRedundantSelection` | hermes-consumers/src/main/java/pl/allegro/tech/hermes/consumers/supervisor/workload/selective/SelectiveWorkBalancer.java:75-84 | Removing such a selection leaves the count at max(R, pins) when it was above R, so never below R, and leaves the set unchanged when it was not. All pins are kept, and other subscriptions' assignments are untouched. |
| `WorkBalancer.SelectiveWorkBalancer.FillWorkload` | hermes-consumers/src/main/java/pl/allegro/tech/hermes/consumers/supervisor/workload/selective/SelectiveWorkBalancer.java:61-62 | The new assignments are the old ones plus one auto-assigned assignment per proposed pair. The view stays valid, and subscriptions and nodes are unchanged. |
| `WorkBalancer.CountMissingResources` | hermes-consumers/src/main/java/pl/allegro/tech/hermes/consumers/supervisor/workload/selective/SelectiveWorkBalancer.java:91-103 | If no listed subscription has more than R assignments, the sum is ≥ 0, and it is 0 exactly when every listed subscription has R. If every listed subscription has at least R, the sum is ≤ 0. |
| `WorkBalancer.MissingResourcesSplit` | hermes-consumers/src/main/java/pl/allegro/tech/hermes/consumers/supervisor/workload/selective/SelectiveWorkBalancer.java:92-102 | The sum splits over concatenated lists, so a repeated subscription is counted once per occurrence. |
| `WorkBalancer.MissingResourcesCanBeNegative` | hermes-consumers/src/main/java/pl/allegro/tech/hermes/consumers/supervisor/workload/selective/SelectiveWorkBalancer.java:94-100 | The sum is not clamped: two pins of one subscription with R = 1 give −1. |
| `WorkBalancer.SelectiveWorkBalancer.EqualizeWorkload` | hermes-consumers/src/main/java/pl/allegro/tech/hermes/consumers/supervisor/workload/selective/SelectiveWorkBalancer.java:105-129 | The phase terminates, with the measure (sum of squared loads, transferred flag). Every subscription's count and the total are kept. Every node's load stays between the old minimum and the old maximum. When there is more than one subscription and at least one node, the loads end balanced (spread ≤ 1). Otherwise nothing changes. |
| `WorkBalancer.SelectiveWorkBalancer.TransferWhileUnbalanced` | hermes-consumers/src/main/java/pl/allegro/tech/hermes/consumers/supervisor/workload/selective/SelectiveWorkBalancer.java:117-126 | Each subscription's count, the total and the load bounds are kept. If anything moved, the load squares dropped. If nothing moved, the view is unchanged and maxLoaded's load is at most minLoaded's load + 1. |
| `WorkBalancer.SelectiveWorkBalancer.MaxLoadedConsumerNode` | hermes-consumers/src/main/java/pl/allegro/tech/hermes/consumers/supervisor/workload/selective/SelectiveWorkBalancer.java:131-133 | On a non-empty node set, returns a node whose load no node exceeds. |
| `WorkBalancer.SelectiveWorkBalancer.MinLoadedConsumerNode` | hermes-consumers/src/main/java/pl/allegro/tech/hermes/consumers/supervisor/workload/selective/SelectiveWorkBalancer.java:135-137 | On a non-empty node set, returns a node whose load is below or equal to every node's load. |
| `WorkBalancer.SelectiveWorkBalancer.SubscriptionForTransfer` | hermes-consumers/src/main/java/pl/allegro/tech/hermes/consumers/supervisor/workload/selective/SelectiveWorkBalancer.java:139-145 | Some(s) gives a subscription that maxLoaded serves and minLoaded does not. None means every subscription of maxLoaded is also served by minLoaded. |
| `Assignments.MaxLoadedExists` | hermes-consumers/src/main/java/pl/allegro/tech/hermes/consumers/supervisor/workload/selective/SelectiveWorkBalancer.java:132 | A non-empty node set has a most-loaded member, so the `.get()` after `max` cannot fail. |
| `Assignments.MinLoadedExists` | hermes-consumers/src/main/java/pl/allegro/tech/hermes/consumers/supervisor/workload/selective/SelectiveWorkBalancer.java:136 | A non-empty node set has a least-loaded member, so the `.get()` after `min` cannot fail. |
| `Assignments.NodeLoadCountsSubscriptions` | hermes-consumers/src/main/java/pl/allegro/tech/hermes/consumers/supervisor/workload/selective/SelectiveWorkBalancer.java:142-143 | With unique pairs, a node's load equals the number of distinct subscriptions it serves. |
| `Assignments.CoveredNodeIsNotHeavier` | hermes-consumers/src/main/java/pl/allegro/tech/hermes/consumers/supervisor/workload/selective/SelectiveWorkBalancer.java:117-123 | Pigeonhole: if every subscription of the max node is also on the min node, the max node is not heavier. Inside the loop guard `maxLoad > minLoad + 1`, this rules out the `else break` branch entirely. |
| `Assignments.HeavierNodeHasTransferCandidate` | hermes-consumers/src/main/java/pl/allegro/tech/hermes/consumers/supervisor/workload/selective/SelectiveWorkBalancer.java:142-144 | Whenever one node is heavier than another, some subscription on the heavier one is absent from the lighter one, so the filter finds a candidate. |
| `Assignments.TransferKeepsPairsUnique` | hermes-consumers/src/main/java/pl/allegro/tech/hermes/consumers/supervisor/workload/selective/SelectiveWorkBalancer.java:121 | A transfer to a node that does not serve the subscription keeps (subscription, node) pairs unique. |
| `Assignments.TransferPreservesCounts` | hermes-consumers/src/main/java/pl/allegro/tech/hermes/consumers/supervisor/workload/selective/SelectiveWorkBalancer.java:121 | A transfer keeps the total number of assignments and every subscription's count. |
| `Assignments.TransferMovesOneUnitOfLoad` | hermes-consumers/src/main/java/pl/allegro/tech/hermes/consumers/supervisor/workload/selective/SelectiveWorkBalancer.java:121-125 | A transfer lowers the donor's load by one and raises the receiver's by one, matching `maxLoad--` and `minLoad++`. Every other load is unchanged. |
| `Assignments.TransferLowersLoadSquares` | hermes-consumers/src/main/java/pl/allegro/tech/hermes/consumers/supervisor/workload/selective/SelectiveWorkBalancer.java:117-127 | A transfer made while maxLoad > minLoad + 1 strictly lowers the sum of squared node loads. This is the termination measure of the do-while. |
| `Assignments.TransferStep` | hermes-consumers/src/main/java/pl/allegro/tech/hermes/consumers/supervisor/workload/selective/SelectiveWorkBalancer.java:117-125 | One transfer keeps uniqueness, the total and per-subscription counts. It moves one unit of load and lowers the load squares. It keeps every load within the bounds it had, so the peak never rises. |
| `Assignments.LoadSquaresSplit` | hermes-consumers/src/main/java/pl/allegro/tech/hermes/consumers/supervisor/workload/selective/SelectiveWorkBalancer.java:109-127 | The load-squares measure splits off any node's square, whichever node the definition picks first. |
| `AssignmentViews.AssignmentView.Copy` | hermes-consumers/src/main/java/pl/allegro/tech/hermes/consumers/supervisor/workload/selective/SelectiveWorkBalancer.java:55 | The transform works on a copy with the same subscriptions, nodes and assignments. |
| `AssignmentViews.AssignmentView.RemoveSubscription` | hermes-consumers/src/main/java/pl/allegro/tech/hermes/consumers/supervisor/workload/selective/SelectiveWorkBalancer.java:56 | The subscription and all its assignments are gone, and the view stays valid. |
| `AssignmentViews.AssignmentView.RemoveConsumerNode` | hermes-consumers/src/main/java/pl/allegro/tech/hermes/consumers/supervisor/workload/selective/SelectiveWorkBalancer.java:57 | The node and all its assignments are gone, and the view stays valid. |
| `AssignmentViews.AssignmentView.AddSubscription` | hermes-consumers/src/main/java/pl/allegro/tech/hermes/consumers/supervisor/workload/selective/SelectiveWorkBalancer.java:58 | The subscription is known afterwards, and adding it twice changes nothing. No assignment changes. |
| `AssignmentViews.AssignmentView.AddConsumerNode` | hermes-consumers/src/main/java/pl/allegro/tech/hermes/consumers/supervisor/workload/selective/SelectiveWorkBalancer.java:59 | The node is known afterwards. No assignment changes. |
| `AssignmentViews.AssignmentView.AddAssignment` | hermes-consumers/src/main/java/pl/allegro/tech/hermes/consumers/supervisor/workload/selective/SelectiveWorkBalancer.java:62 | Adding an assignment whose pair is new keeps the view valid. |
| `AssignmentViews.AssignmentView.RemoveAssignment` | hermes-consumers/src/main/java/pl/allegro/tech/hermes/consumers/supervisor/workload/selective/SelectiveWorkBalancer.java:71 | Exactly that assignment is gone, and the view stays valid. |
| `AssignmentViews.AssignmentView.TransferAssignment` | hermes-consumers/src/main/java/pl/allegro/tech/hermes/consumers/supervisor/workload/selective/SelectiveWorkBalancer.java:121 | The assignments become `Transferred(old, from, to, s)`, and the view stays valid. |
| `WorkBalancer.SelectiveWorkBalancer.constructor` | hermes-consumers/src/main/java/pl/allegro/tech/hermes/consumers/supervisor/workload/selective/SelectiveWorkBalancer.java:24-27 | The balancer keeps the replication factor and the per-node capacity it is given. |

## Left out

- Logging (`logger.info` in `countMissingResources`, and the `log` method): side effects only.
- `WorkBalancingResult.Builder` is not part of this model. The result is the plain datatype `WorkBalancingResult`: the new view plus seven integer counters.
- `AvailableWork` is not part of this model. Its selection policy, and its promise to honour `maxSubscriptionsPerConsumer` and bring each subscription up to the replication factor, are not modelled. The model therefore proves no per-node capacity bound and no "every subscription reaches R" property. `maxSubscriptionsPerConsumer` is only passed through to it.
- `SubscriptionAssignmentView` and its `Transformer` are not part of this model. Only the set-level effect of each transformer call is modelled. Iteration order, copying internals and the lazy evaluation of the work stream while assignments are added are not.
- Tie-breaking of `Stream.max`, `Stream.min`, `findAny` and iterator order is not modelled. Any witness is allowed.
- Java `int` overflow in the counters and in `countMissingResources` is not modelled. Dafny integers are unbounded.
- The O(n·m) cost of `List.contains` in the diff functions is not modelled. It is a performance concern only.
- Leader election, persistence of the view and concurrency are outside this file.
- Idempotence of a second `balance` call on the returned view is not proved. It depends on the work generator, which is not part of this model.
