# Verified model of the DRAForge simulator

DRAForge simulates Kubernetes Dynamic Resource Allocation. This project models the parts of it that
decide something and proves what they are for:

- the claim allocator: which devices a pending ResourceClaim receives, from the greedy planner or from
  the budgeted backtracking search, and the ledger that later claims are planned against;
- the capacity policies that say how much of a shared device a request consumes;
- the pool reconciler and the finalizer protocol that ties cluster-scoped slices to namespaced pools;
- the leader lifecycle of the controller process;
- the length-prefixed identities of graph nodes.

`dafny verify dfyconfig.toml` checks the whole project.

## How the model is built

One module per component, each in the file of its name. `Types` holds the records.

| modules | what they hold |
|---|---|
| `CapacityPolicy`, `Ledger`, `Pools`, `Combinations`, `Constraints` | the parts: rounding and fit, the committed ledger, current slices, combinations, MatchAttribute constraints |
| `Candidates`, `Choices`, `Backtracking` | what a device grants, which choices are legitimate (`Admissible`, without any enumeration), the search as a function, and `Solution`, the one validity predicate for both planners |
| `Collector`, `UsageMaps`, `SearchMachine`, `Greedy` | the program's loops, callbacks, budget object, selection stack and cloned usage maps, each proved equal to the specification |
| `Sites`, `Failures`, `Aborts`, `Outcomes`, `Examples` | which devices are looked at, which failure a request ends in, when the search cannot fail, what planning a claim comes to, and claims on which the planners miss a solution |
| `Plans`, `Simulation`, `StoredClaims`, `Runs` | what every solution guarantees, commits and passes, what is stored, and whole runs |
| `FinalizerProtocol` | pools, slices, users and the worker as a transition system over a versioned store |
| `PoolStore`, `WorkerSteps`, `ApiServer` | the stored pools and slices, the protocol step behind every write, and an API server whose calls may fail, that refuses stale versions, and that others write to as well |
| `Reconciler`, `Contents`, `ReconcilePass` | one reconcile pass: steps of the finalizer protocol whoever else writes, convergence when nobody does, and what pools and slices then hold |
| `LeaderLifecycle` | the two goroutines as an interleaving transition system |
| `Decimals`, `GraphIdentity` | the encoder, a decoder, and the identities built with it |

Modelling decisions that matter for reading the statements:

- Selector evaluation is the uninterpreted function `selects` with the answers selected, not selected
  and failed. Share identifiers come from a supply of fresh ones, drawn on commit. Context cancellation
  does not occur.
- Quantities are whole int64 values; sums of committed quantities are unbounded, and the rounding
  arithmetic wraps as two's complement.
- Go iterates maps in an unspecified order. Where the order can change a verdict (a capacity check that
  meets both an error and a rejection), the verdict is settled by an oracle `errorFirst`, and
  `CapacityPolicy.OrderMatters` says exactly when it matters. The rest of the allocator is proved for
  every such oracle.
- A failure is not "no match". `Backtracking.ExploreComplete` speaks of the search that ends with no
  match and no failure; `Admissible` for an All alternative therefore asks that the devices of the node
  can be evaluated (the program may skip a node whose evaluation fails and report the failure late).
- The two planners' plans are not claimed to be equal; both are claimed to be solutions. That the greedy
  planner's final check of the result limit never fires follows from `Greedy.RequestIsAdmissible`.
- API calls fail according to an oracle `up`; `Reliable(up)` says that none does. What others have made of the
  store by the time of a call is a function `env`, of which it is known only that it amounts to steps of users
  in the finalizer protocol (`Lawful(env)`); `Alone(env)` says that nobody else writes. One pass is thus verified
  for every interleaving of its calls with users.
- A run of the allocator keeps the claims as stored apart from the claims as the simulator knows them:
  plans are made against the listing at the start of the pass and the simulator's own writes since, while
  claims arrive, leave and are released. A write is accepted only for a claim that is still stored as known.
- The usage of a search branch is an object with one tally object per shared device, so that cloning has to
  copy the tallies to give a branch its own.

Some statements one might expect are false of the code, and are replaced by conditions on its input:

- *The search finds a plan whenever there is one.* A request that overflows the result limit after the
  selections made so far aborts the search, although other selections would leave room
  (`Examples.SearchGivesUp`). Every abort has a cause in a state the search reaches (`Aborts.AbortHasCause`),
  none is passed over (`Aborts.NothingInterrupted`, `Aborts.NothingBeforeInterrupted`), an overflow is not among
  them when the most that the requests can take adds up to no more than the limit
  (`Aborts.FittingCountsNeverOverflow`), and over an inventory that can always be assessed such a search finds
  a plan if and only if there is one (`Aborts.FittingSearchDecides`, `Outcomes.SearchedClaimIsDecided`).
- *The greedy planner finds a plan whenever there is one.* It does not go back on what it took for an earlier
  request (`Examples.GreedyMisses`). It is complete request by request: a request it reports as unmatched has
  no admissible selection after those made before it (`Greedy.UnmatchedIsHopeless`), and a claim of one request
  is served exactly when it has a solution (`Outcomes.OneRequestDecided`).
- *No pass deletes a slice that a live pool wants.* A deleting pool deletes every slice that carries its
  labels, also one whose name a live pool has come to want (`ReconcilePass.ClaimsHappen` is such an input),
  and a disappearing pool deletes whatever is stored under its names. `ReconcilePass.Reconcile` proves that an
  undisturbed pass deletes no wanted slice if no pool claims one (`Unclaimed`), and that a complete one does
  delete one otherwise.
- *A pass converges.* Slice names are not injective, and two live pools can want the same one
  (`ReconcilePass.ContestsHappen`). A complete undisturbed pass leaves a settled store if and only if no
  slice name is contested (`Separate`).

That map order can change a capacity verdict is shown by `CapacityPolicy.OrderCanMatter`.
Likewise, decoding an identity works exactly when its kind has no slash (`GraphIdentity.RoundTrip`), and
slice selection succeeds in every listing order exactly when counts agree and the newest generation is
complete (`Pools.SucceedsInEveryOrder`).

## Model

| member | source | states |
|---|---|---|
| `CapacityPolicy.ValidateValidValues` | internal/simulator/capacity_policy.go:128-155 | the scan that compares neighbours accepts exactly the lists that are strictly ascending, within the total and hold the default |
| `CapacityPolicy.ValidIffSound` | internal/simulator/capacity_policy.go:103-217 | a capacity is valid exactly when its total is not negative and its policy is sound: listed values ascend within the total and hold the default, or default and maximum lie whole steps above the minimum, in plain arithmetic |
| `CapacityPolicy.RoundToRangeWraps` | internal/simulator/capacity_policy.go:259-284 | if the true rounded value fits int64 the machine computes it; if not, the machine's value is negative and so rejected; the step is never divided by zero |
| `CapacityPolicy.CeilStepsLeast` | internal/simulator/capacity_policy.go:271-281 | the number of steps taken is the least whose multiple covers the distance |
| `CapacityPolicy.FirstCoveringIsLeast` | internal/simulator/capacity_policy.go:244-252 | the first listed value at or above the request is the least such value; none is found only if all are below |
| `CapacityPolicy.RoundingIsLeastAllowed` | internal/simulator/capacity_policy.go:230-284 | for every validated policy the consumed amount is the least allowed value at or above the request, and there is none exactly when the request exceeds every representable allowed value |
| `CapacityPolicy.DefaultIsFixedPoint` | internal/simulator/capacity_policy.go:219-257 | the default is allowed, is consumed when nothing is asked for, and is not rounded |
| `CapacityPolicy.RoundingIdempotent` | internal/simulator/capacity_policy.go:230-284 | rounding a rounded amount changes nothing |
| `CapacityPolicy.RoundingMonotone` | internal/simulator/capacity_policy.go:230-284 | a smaller request is eligible whenever a larger one is, and consumes no more |
| `CapacityPolicy.MachineFitIsMathematicalFit` | internal/simulator/capacity_policy.go:69-85 | the fit decision in wrapped arithmetic equals the decision over unbounded integers for every request and usage |
| `CapacityPolicy.FitIffEachFits` | internal/simulator/capacity_policy.go:14-101 | a device fits exactly when usage and requests are valid and every capacity fits on its own |
| `CapacityPolicy.FitIffRoomForEach` | internal/simulator/capacity_policy.go:14-101 | said without the rounding code: every capacity has room for some amount that is due |
| `CapacityPolicy.FitConsumesDue` | internal/simulator/capacity_policy.go:14-85 | every capacity is charged exactly the amount due: the least allowed one that covers the request, or, not mentioned, the default or else the whole |
| `CapacityPolicy.InvalidExactly` | internal/simulator/capacity_policy.go:14-101 | exactly when a device is found in error: negative or unknown usage, a negative request, or an unsound capacity, as far as nothing that refuses the device is met first; lack of room is never an error |
| `CapacityPolicy.FitIsSafe` | internal/simulator/capacity_policy.go:14-85 | a fit grants exactly the device's capacity keys, covers each request, is not negative and stays within the total |
| `CapacityPolicy.NoOtherVerdict` | internal/simulator/capacity_policy.go:14-67 | under every map iteration order the verdict is one of the two that the oracle can settle on |
| `CapacityPolicy.BothVerdictsReached` | internal/simulator/capacity_policy.go:14-67 | both are reached under some iteration orders |
| `CapacityPolicy.OrderMatters` | internal/simulator/capacity_policy.go:14-67 | the iteration order changes the verdict exactly when the deciding loop meets both an error and a rejection |
| `CapacityPolicy.OrderCanMatter` | internal/simulator/capacity_policy.go:51-67 | an input with an invalid capacity beside one that is too small: an error in one order, a rejection in the other |
| `CapacityPolicy.EvaluateShareable` | internal/simulator/capacity_policy.go:14-67 | the loops over requests and capacities reach the first stopping entry's verdict in the given orders and, when none stops, the amounts that `CapacityPolicy.FitConsumesDue` characterises |
| `CapacityPolicy.EvaluateEntry` | internal/simulator/capacity_policy.go:69-85 | one entry fails, rejects or passes as specified, and a passing one yields the consumed amount |
| `Ledger.CommittedUsage.Add` | internal/simulator/allocation_usage.go:56-145 | the in-place ledger accepts a result exactly when the specification does and then has its value |
| `Ledger.AddAmounts` | internal/simulator/allocation_usage.go:56-145 | entry by entry addition in any order gives the pointwise sum, or fails exactly on a negative amount |
| `Ledger.AddQuantities` | internal/simulator/allocation_usage.go:195-203 | the same for amounts already checked |
| `Ledger.CollectUsage` | internal/simulator/allocation_usage.go:32-45 | the loop over all results gives the collected ledger or fails |
| `Ledger.ShareIDsAreUUIDs` | internal/simulator/allocation_usage.go:14-14 | exactly the lower-case UUIDs are share identifiers |
| `Ledger.AddIffCompatible` | internal/simulator/allocation_usage.go:56-145 | a result is accepted exactly when it is well formed and compatible with every result already collected |
| `Ledger.CollectIffConsistent` | internal/simulator/allocation_usage.go:32-145 | collecting succeeds exactly when no device is held twice other than by distinct shares, and the index then has an entry exactly for the devices a rescan finds, with the right holders and sums |
| `Pools.CompleteCurrentPoolSlices` | internal/simulator/allocation_plan.go:440-477 | the one-pass scan with a record per pool gives the specified current slices or fails |
| `Pools.ReadSlice` | internal/simulator/allocation_plan.go:444-465 | reading one slice keeps the record accurate, or the declared counts disagree |
| `Pools.NewestIsMaximum` | internal/simulator/allocation_plan.go:451-458 | the generation kept is the highest of the pool |
| `Pools.CurrentSlicesExact` | internal/simulator/allocation_plan.go:440-477 | on success the result holds exactly the slices of each pool's newest generation, each as often as it was listed |
| `Pools.PoolOrderAppears` | internal/simulator/allocation_plan.go:441-450 | pools are listed once each, in the order in which they are first seen |
| `Pools.CurrentSlicesGrouped` | internal/simulator/allocation_plan.go:468-476 | the result is grouped by pool, in that order |
| `Pools.KeptSlicesAgree` | internal/simulator/allocation_plan.go:459-464 | with positive counts, the slices kept for a pool all declare the same count |
| `Pools.SuccessMeansComplete` | internal/simulator/allocation_plan.go:468-474 | on success each newest generation has as many slices as it declares |
| `Pools.SucceedsInEveryOrder` | internal/simulator/allocation_plan.go:440-477 | with positive counts, every order of the slices succeeds if and only if counts agree within every generation and every newest generation is complete |
| `Combinations.CombosComplete` | internal/simulator/allocation_constraints.go:356-384 | exactly the strictly increasing index lists of the wanted length are enumerated |
| `Combinations.CombosAscend` | internal/simulator/allocation_constraints.go:356-384 | in strict lexicographic order, so each once |
| `Combinations.CombosCount` | internal/simulator/allocation_constraints.go:356-384 | their number is the binomial coefficient |
| `Combinations.SubsetIsCombination` | internal/simulator/allocation_constraints.go:356-384 | every sub-collection without repetition is, up to order, one of them |
| `Constraints.Cut` | internal/simulator/allocation_constraints.go:633-648 | splitting at the first slash loses nothing and finds a slash if there is one |
| `Constraints.CheckConstraint` | internal/simulator/allocation_constraints.go:581-605 | the loop over the chosen devices computes the specified answer |
| `Constraints.CheckConstraints` | internal/simulator/allocation_constraints.go:568-579 | so does the loop over the constraints |
| `Constraints.CheckMeansAgreement` | internal/simulator/allocation_constraints.go:568-605 | the check holds exactly when all devices a constraint applies to have the attribute with one and the same scalar value |
| `Constraints.PruningIsSafe` | internal/simulator/allocation_constraints.go:160-177 | a prefix that fails the check is failed by every extension |
| `Constraints.BrokenExactly` | internal/simulator/allocation_constraints.go:568-605 | the check breaks off exactly when, all earlier constraints being satisfied, one comes to an unusable attribute before it is violated |
| `Constraints.AppliesExactly` | internal/simulator/allocation_constraints.go:618-631 | a constraint covers the requests it names and all their subrequests, or everything when it names none |
| `Constraints.LooksUpExactly` | internal/simulator/allocation_constraints.go:633-648 | an attribute is found by its full name, or without the domain when that is the device's driver |
| `Constraints.ReadsTheOneScalar` | internal/simulator/allocation_constraints.go:650-678 | lists and several values are unusable, no value is missing, and the one value is told apart by its kind |
| `Constraints.ConstraintsIffSupportable` | internal/simulator/allocation_constraints.go:68-115 | constraints are accepted exactly when each matches one attribute with domain and name and refers only to requests and subrequests of the claim, and are taken over unchanged |
| `Candidates.AlternativeIffSupportable` | internal/simulator/allocation_plan.go:302-365 | an alternative is accepted exactly when it names a class, uses neither admin access nor tolerations, asks for no negative capacity and has a known mode with a fitting count; it then asks for what was specified, a count of 0 standing for 1 |
| `Candidates.RequestIffSupportable` | internal/simulator/allocation_plan.go:249-300 | a request is accepted exactly when it has one of the two forms and all its alternatives are supportable; the alternatives are then those listed, in order, named after the request |
| `Candidates.GrantsExactly` | internal/simulator/allocation_usage.go:224-350 | a device is granted exactly when it is selected and supported and is either free as a whole and large enough, or held by shares only with room in every capacity |
| `Candidates.FailsExactly` | internal/simulator/allocation_usage.go:224-376 | assessing a device fails exactly when selectors fail, when it is selected and not supported, or when its record, what is committed and what the attempt holds contradict each other; a device without room is passed over |
| `Candidates.ScanByExact` | internal/simulator/allocation_constraints.go:386-448 | a scan that does not fail collects exactly the devices that some site grants, each once, from the first site that grants it |
| `Candidates.EvaluatingDecides` | internal/simulator/allocation_constraints.go:526-566 | unless it fails, evaluation gives what the site grants when asked alone, to devices not yet collected |
| `Candidates.NodeOrderCovers` | internal/simulator/allocation_constraints.go:386-414 | the node order lists every node with candidates once |
| `Sites.NodeOrderAppears` | internal/simulator/allocation_constraints.go:386-414 | nodes are ranked by the position of their first candidate |
| `Sites.ManagedNodesAppear` | internal/simulator/allocation_plan.go:418-438 | for All, nodes are ranked by the position of their first managed slice |
| `Sites.ExactSitesExactly` | internal/simulator/allocation_constraints.go:386-421 | the devices looked at are those of all healthy managed slices that are not of other nodes than the one pinned |
| `Sites.AllSitesExactly` | internal/simulator/allocation_constraints.go:484-514 | for All, those on healthy slices of the newest generation of every pool of the node |
| `Candidates.PicksOnExact` | internal/simulator/allocation_constraints.go:386-414 | a node's candidates are exactly those collected for it, all different devices |
| `Choices.ExactMovesSound` | internal/simulator/allocation_constraints.go:331-384 | every selection tried for an ExactCount alternative is admissible |
| `Choices.ExactMovesComplete` | internal/simulator/allocation_constraints.go:331-384 | every admissible selection is tried, up to the order of its devices |
| `Choices.AllOnExact` | internal/simulator/allocation_constraints.go:484-514 | an All selection is the whole set of healthy, current, matching, free devices of its node |
| `Choices.AllMovesComplete` | internal/simulator/allocation_constraints.go:450-482 | every admissible All selection is tried |
| `Choices.ChainListed` | internal/simulator/allocation_constraints.go:237-276 | a selection is reached exactly when its own alternative lists it and no earlier alternative fails |
| `Choices.TraceSound` | internal/simulator/allocation_constraints.go:237-354 | everything tried for a request is admissible |
| `Choices.TraceComplete` | internal/simulator/allocation_constraints.go:237-354 | everything admissible is tried unless an earlier alternative fails |
| `Choices.TraceUnfailing` | internal/simulator/allocation_constraints.go:308-329 | a request that ends without failure has come through all alternatives without failure |
| `Failures.ScanFailsAtFirst` | internal/simulator/allocation_constraints.go:423-448 | a scan fails at the first device that cannot be assessed, with its failure |
| `Failures.AlternativeTold` | internal/simulator/allocation_constraints.go:278-306 | an alternative fails as its scan does or, for All, as the last node that fails, unless some node has more than remains |
| `Failures.RequestFails` | internal/simulator/allocation_constraints.go:237-329 | a request's selections end in the failure of the first alternative that fails, else in a missing class if all are missing, else in the limit if the only alternative is too large, else in none |
| `Choices.TraceAscends` | internal/simulator/allocation_constraints.go:237-384 | selections are tried in the order alternative, node, combination, none twice |
| `Backtracking.ExploreSound` | internal/simulator/allocation_constraints.go:138-230 | a plan found serves every request in order by an admissible selection and satisfies all constraints |
| `Backtracking.SolutionSatisfiesConstraints` | internal/simulator/allocation_constraints.go:568-605 | the devices of a plan satisfy all constraints |
| `Backtracking.ExploreComplete` | internal/simulator/allocation_constraints.go:138-205 | if the search ends with no plan and no failure, the requests have no solution at all |
| `Backtracking.ExplorePrefers` | internal/simulator/allocation_constraints.go:237-354 | at every request of the plan, nothing preferred to the selection taken can be completed after the selections before it |
| `Backtracking.EarlierAlternativeHopeless` | internal/simulator/allocation_constraints.go:237-276 | a FirstAvailable alternative is used only when no admissible selection of an earlier one can be completed |
| `Aborts.AbortHasCause` | internal/simulator/allocation_constraints.go:138-205 | every failure of the search is that of a constraint which cannot be checked, or of a request's selections, in a state reached by admissible selections |
| `Aborts.NothingInterrupted` | internal/simulator/allocation_constraints.go:138-205 | when the search ends without plan and failure, nothing that it came to could have made it fail: no constraint that cannot be checked, no request whose selections fail |
| `Aborts.NothingBeforeInterrupted` | internal/simulator/allocation_constraints.go:138-205 | when it finds a plan, that holds for everything preferred to the plan |
| `Aborts.FittingCountsNeverOverflow` | internal/simulator/allocation_constraints.go:280-329 | if the most that the requests can take together fits (the number asked for, or for All the number of healthy devices), no reached state overflows |
| `Aborts.FittingSearchDecides` | internal/simulator/allocation_constraints.go:138-329 | if besides every healthy managed device can be assessed (shared devices with valid capacities included), pools are complete where All is used and every request knows a class, the search without a budget never fails, and finds a plan exactly when there is one |
| `Aborts.ReachedAreOrderly` | internal/simulator/allocation_usage.go:169-182 | over such an inventory, what a search has reserved in any state it reaches never contradicts a device that is to be shared |
| `Examples.SearchGivesUp` | internal/simulator/allocation_constraints.go:280-329 | an inventory, a constraint and two requests with a solution, on which the search aborts at its first selection |
| `Examples.SearchGoesBack` | internal/simulator/allocation_constraints.go:138-205 | with fewer devices on the node, so that the requests fit, the search goes back and finds a plan |
| `Backtracking.SimilarSolutions` | internal/simulator/allocation_constraints.go:138-205 | what solves the remaining requests does not depend on the order in which earlier devices were named |
| `Backtracking.ReserveAnyOrder` | internal/simulator/allocation_usage.go:169-182 | reserving the same devices in another order gives the same usage |
| `Backtracking.BudgetIsTransparent` | internal/simulator/allocation_constraints.go:39-66 | within the limit the budgeted search gives the unbudgeted answer and has used exactly its cost; beyond it, it is out of budget |
| `Backtracking.LargerLimitSameAnswer` | internal/simulator/allocation_constraints.go:39-66 | a limit that is not exhausted gives the same answer, at the same cost, as every larger limit |
| `Collector.CollectSlice` | internal/simulator/allocation_constraints.go:423-448 | the loop over a slice's devices extends the scan |
| `Collector.CollectExact` | internal/simulator/allocation_constraints.go:386-414 | the candidates kept per node are the scan's candidates, grouped |
| `Collector.CollectAllOn` | internal/simulator/allocation_constraints.go:484-514 | the All devices of a node are the scan of its current, healthy slices, or its pools are not complete |
| `Collector.ManagedByNode` | internal/simulator/allocation_plan.go:418-438 | nodes in first-seen order, each with its managed slices in order |
| `SearchMachine.SearchBudget.Consume` | internal/simulator/allocation_constraints.go:57-66 | one unit is taken unless none is left |
| `UsageMaps.AttemptUsage.Clone` | internal/simulator/allocation_usage.go:155-193 | the copy is a new object with new tallies, sharing none with the original, and has the same value |
| `UsageMaps.AttemptUsage.ReserveGrant` | internal/simulator/allocation_usage.go:169-182 | reserving in place changes only the object and its own tallies, and its value as reserving on values does |
| `UsageMaps.AttemptUsage.AddTo` | internal/simulator/allocation_usage.go:176-181 | one device's tally grows, and no other device's changes with it |
| `UsageMaps.Tally.Add` | internal/simulator/allocation_usage.go:195-203 | amounts are added up in place |
| `SearchMachine.WithSelection` | internal/simulator/allocation_constraints.go:207-222 | a child branch owns a new usage object and new tallies whose value is a from-scratch fold over its own devices; no object of its parent or siblings is modified or shared |
| `SearchMachine.SearchRequests` | internal/simulator/allocation_constraints.go:138-205 | the recursive search with callbacks and a shared budget returns the specified verdict and budget, modifying nothing but the budget |
| `SearchMachine.ForEachRequestSelection` | internal/simulator/allocation_constraints.go:237-329 | the alternatives are tried as specified, and the failure at the end is the specified one |
| `SearchMachine.ForEachAll` | internal/simulator/allocation_constraints.go:450-524 | so are the nodes of an All alternative, with deferred failures |
| `SearchMachine.ForEachExact` | internal/simulator/allocation_constraints.go:331-354 | so are the nodes and combinations of an ExactCount alternative |
| `SearchMachine.ForEachCombination` | internal/simulator/allocation_constraints.go:356-384 | the callback runs through the combinations in order until it stops |
| `SearchMachine.Visit` | internal/simulator/allocation_constraints.go:363-384 | the shared stack is restored after every visit, whatever the callback answers |
| `SearchMachine.RunIsSearchEach` | internal/simulator/allocation_constraints.go:138-205 | running the callback over the list of selections is the search's own loop |
| `SearchMachine.RunConcat` | internal/simulator/allocation_constraints.go:237-384 | running through two lists is running through the first and, unless it stops, the second |
| `SearchMachine.PlanConstrained` | internal/simulator/allocation_constraints.go:117-136 | the planned claim has a solution that is preferred to all others; no match means that there is none; exhaustion is reported exactly when the search would examine more than the limit |
| `Greedy.IsDeviceAllocated` | internal/simulator/allocation.go:127-139 | true exactly when some stored result names the device |
| `Greedy.GreedyFailsExactly` | internal/simulator/allocation_plan.go:568-635 | the greedy assessment fails exactly when selectors fail, or a selected device is not supported, to be shared, or has a policy or negative total; a device too small, chosen or committed is passed over, any other is given |
| `Greedy.GreedyDecides` | internal/simulator/allocation_plan.go:568-635 | unless it fails, the greedy assessment grants what the search would grant |
| `Greedy.SearchFailsLess` | internal/simulator/allocation_plan.go:568-612 | where the greedy assessment does not fail, the search's answer is the same |
| `Greedy.Accumulator.Add` | internal/simulator/allocation_plan.go:637-644 | one node grows by one device, and the node is complete when it has the wanted number |
| `Greedy.SelectExact` | internal/simulator/allocation_plan.go:374-386 | the node that fills first in slice order is taken; a failure is reported only when it comes before any node is full; otherwise no node has enough |
| `Greedy.SelectAll` | internal/simulator/allocation_plan.go:388-416 | the first node whose pools are complete and whose devices are some and within the limit is taken with all its devices; a failing node stops; over-limit, incomplete pools and no node are told apart |
| `Greedy.FilledIsAdmissible` | internal/simulator/allocation_plan.go:515-544 | the devices of the node that fills first are an admissible selection |
| `Greedy.TakenIsAdmissible` | internal/simulator/allocation_plan.go:479-505 | so are all devices of the node taken for All |
| `Greedy.SelectAlternative` | internal/simulator/allocation_plan.go:367-372 | an alternative is selected, skipped or stopped as its mode's scan ends |
| `Greedy.SelectRequest` | internal/simulator/allocation_plan.go:180-247 | the first alternative that is not skipped decides; when all are skipped the reason is the limit, missing classes or no match, as the source ranks them |
| `Greedy.RequestIsAdmissible` | internal/simulator/allocation_plan.go:180-230 | a greedy selection is one the search could make, and exclusive |
| `Greedy.UnservedIsHopeless` | internal/simulator/allocation_plan.go:191-227 | a request all of whose alternatives are skipped has no admissible selection |
| `Greedy.EarlierAdmitsNothing` | internal/simulator/allocation_plan.go:191-227 | the alternative taken is the first that has an admissible selection |
| `Greedy.UnmatchedIsHopeless` | internal/simulator/allocation_plan.go:180-247 | a request reported as unmatched, or as naming only missing classes, has no admissible selection after the choices before it |
| `Greedy.OneRequestComplete` | internal/simulator/allocation_plan.go:113-131 | a claim of one request that is reported so has no solution |
| `Outcomes.PlainRequestFails` | internal/simulator/allocation_plan.go:180-247 | where every device can be assessed, a request fails only for missing classes, exactly when all are, for want of a match, or because its only alternative needs more results than remain |
| `Outcomes.PlainClaimFails` | internal/simulator/allocation_plan.go:113-131 | so does a whole claim |
| `Outcomes.OneRequestDecided` | internal/simulator/allocation_plan.go:113-131 | there a claim of one request that does not overflow is served exactly when it has a solution |
| `Examples.GreedyMisses` | internal/simulator/allocation_plan.go:113-131 | two requests with a solution, on a node with 2 to 31 devices, that the planner reports as unmatched |
| `Greedy.PlanUnconstrained` | internal/simulator/allocation_plan.go:113-131 | the plan follows the request-by-request selections and is a solution in the search's sense; a failure is that of the first request not served |
| `Plans.AdmissibleOrigin` | internal/simulator/allocation_usage.go:224-350 | every device selected comes from a managed slice of the node, matches the selectors, and is free |
| `Plans.SolutionOnOneNode` | internal/simulator/allocation_constraints.go:207-230 | all devices of a plan are on the plan's node and there are at most 32 |
| `Plans.SolutionServesInOrder` | internal/simulator/allocation_constraints.go:207-230 | the results are one stretch per request, in request order, each served by one alternative with the right number of different devices, all selected and with what is asked for: large enough as a whole, or charged the amounts due |
| `Plans.GrantFitsAlternative` | internal/simulator/allocation_usage.go:224-350 | a granted device is selected by the alternative's class and own selectors and has what it asks for |
| `Plans.GrantsAreSafe` | internal/simulator/allocation_usage.go:242-398 | a granted device is not held exclusively, an exclusive grant is not shared, and a share reports the device's keys within its capacity |
| `Plans.SolutionIsSafe` | internal/simulator/allocation_constraints.go:138-230 | whatever solves the requests can be committed beside the ledger it was planned against |
| `Simulation.PlanClaim` | internal/simulator/allocation_plan.go:88-111 | the search plans claims with constraints, shareable devices or committed shares, the greedy planner all others; either way a plan is a solution |
| `Outcomes.SearchedClaimIsDecided` | internal/simulator/allocation_plan.go:88-111 | with constraints, devices to be shared or shares allocated, and where everything can be assessed and the requests fit, a claim is planned exactly when it has a plan and reported as unmatched otherwise, unless the search exceeds 100000 selections |
| `Outcomes.SearchedClaimFails` | internal/simulator/allocation_plan.go:88-111 | over any inventory such a claim is reported as unmatched only when it has no plan; any other failure is the exhausted limit or has its cause in a state that the search reaches |
| `Outcomes.UnsearchedClaimIsDecided` | internal/simulator/allocation_plan.go:88-111 | without any of these, a claim of one request that does not overflow is planned exactly when it has a plan |
| `Outcomes.PlainSearchFails` | internal/simulator/allocation_constraints.go:308-329 | where everything can be assessed, the search fails on a request exactly when all its classes are missing or its only alternative needs more results than remain |
| `Simulation.CommitKeepsConsistency` | internal/simulator/allocation.go:64-118 | storing a plan's results leaves a ledger that can be collected again |
| `Simulation.CommitFitsTouched` | internal/simulator/allocation.go:64-118 | in an inventory with one record per device triple, every share the commit touches reports exactly its device's keys, with totals within capacity; devices not touched keep their totals |
| `Simulation.CommitKeepsCapacity` | internal/simulator/allocation.go:64-118 | with one record per device in a catalog, planning on any part of it keeps every device of the catalog within its capacities |
| `Simulation.AllocationPass.SimulateAllocation` | internal/simulator/allocation.go:22-98 | claim after claim, each pending one with a plan receives it, the others stay; the pass stops early only when the API refuses a ready plan; the counter counts the claims changed |
| `StoredClaims.CommitStores` | internal/simulator/allocation.go:64-118 | a commit changes one claim, and in it only the allocation: the planned devices one for one and in order, an identifier exactly for shares, and the plan's node; all lie on healthy managed slices of that node, serve the claim's requests in order and satisfy its constraints |
| `StoredClaims.TurnStores` | internal/simulator/allocation.go:64-118 | so a turn leaves the claims as they were or stores such a plan, made for its claim, in it and in no other |
| `StoredClaims.TurnServes` | internal/simulator/allocation.go:64-98 | a turn comes to nothing exactly when the claim is allocated, has no requests, or has no plan with devices |
| `StoredClaims.AllResultsExactly` | internal/simulator/allocation_usage.go:32-45 | the results planned against are those of all allocated claims |
| `Runs.FewerAreConsistent` | internal/simulator/allocation.go:39-62 | a ledger that has lost results is consistent if the one before was, so a listing can always be collected |
| `Runs.FewerConsumeLess` | internal/simulator/allocation.go:39-62 | losing results does not raise a total |
| `Runs.CommitTracks` | internal/simulator/allocation.go:64-98 | a plan made against an out-of-date listing, stored beside what is stored by then, gives the store no result that the simulator does not know of |
| `Runs.RunsStayConsistent` | internal/simulator/allocation.go:22-98 | over every run, with inventories that change at every step and listings out of date, no exclusive device is held twice, none is both exclusive and shared, and collecting the ledger never fails |
| `Runs.RunsStayWithinCapacity` | internal/simulator/allocation.go:22-98 | over every run in which slices come and go but no device's record changes, consumption stays within capacity and shares report exactly their device's keys |
| `Runs.TurnsAreRun` | internal/simulator/allocation.go:22-37 | a pass, complete or cut short, is part of a run |
| `Runs.PassIsSafe` | internal/simulator/allocation.go:22-98 | after every commit of every pass the ledger is consistent and, if the inventory has one record per device triple, within capacity |
| `FinalizerProtocol.ListSlicesKeepsInv` | internal/simulator/ownership.go:82-97 | once the slices are listed, every slice that carries the deleting pool's uid is on the list |
| `FinalizerProtocol.DeleteListedKeepsInv` | internal/simulator/ownership.go:98-106 | passing over a listed slice or deleting it keeps that so |
| `FinalizerProtocol.RemoveFinalizerKeepsInv` | internal/simulator/ownership.go:108-118 | when the finalizer is removed no slice carries the pool's uid |
| `FinalizerProtocol.AddFinalizerKeepsInv` | internal/simulator/ownership.go:62-80 | adding the finalizer, or being refused for a stale version, keeps the invariant |
| `FinalizerProtocol.PublishKeepsInv` | internal/simulator/reconcile.go:56-96 | publishing from an old snapshot of a pool keeps the invariant |
| `FinalizerProtocol.UserKeepsInv` | docs/operations/guide.md:133-151 | so do users who create, edit or delete pools while the ownership contract is in force, and who handle slices without a uid label, as legacy slices are |
| `FinalizerProtocol.NextKeepsInv` | internal/simulator/ownership.go:62-162 | so does every step of worker and users, failures and crashes included |
| `FinalizerProtocol.EveryStateIsSafe` | internal/simulator/ownership.go:62-162 | in every reachable state a slice with a pool's uid label has that pool stored with the cleanup finalizer |
| `FinalizerProtocol.StepsKeepInv` | internal/simulator/ownership.go:62-162 | the invariant holds along every sequence of worker and user steps that starts with it |
| `FinalizerProtocol.NoPoolVanishesOwningSlices` | internal/simulator/ownership.go:82-118 | in every step from an invariant state in which a pool goes, no slice that carries its uid is left |
| `PoolStore.DevicesNumbered` | internal/simulator/controller.go:139-166 | as many devices as asked for, numbered from 0, no two of one name, each with the pool's attributes and capacities |
| `Contents.WantedIsTold` | internal/simulator/reconcile.go:129-225 | slices as a pool wants them hold what its stored spec says: labels, health, driver, node, pool name, count and devices with all attributes and capacities, defaults filled in; none for an exhausted pool and no slices for one that disappears |
| `Contents.PoolAfterIsTold` | internal/simulator/reconcile.go:56-109 | a pool after its turn: a live one keeps identity and spec and has finalizer and status (published names in node order, faults); a deleting one loses the finalizer only, in order, and goes with its last |
| `Contents.WishesTold` | internal/simulator/reconcile.go:160-225 | which names a pool uses, and when it publishes, disappears or is finalized, from its stored spec |
| `Contents.OwnedTold` | internal/simulator/ownership.go:139-154 | what a pool being finalized owns, legacy slices included |
| `Contents.SliceNamesIdentify` | internal/simulator/reconcile.go:222-225 | without dots and dashes in names, a slice name identifies pool and node |
| `Reconciler.BuildDevices` | internal/simulator/controller.go:139-166 | the loop builds that list |
| `WorkerSteps.SafeMeansGuarded` | internal/simulator/ownership.go:139-154 | the protocol's safety says of the stored objects that every slice with a uid label has its pool stored with the cleanup finalizer |
| `WorkerSteps.ListStep` | internal/simulator/reconcile.go:30-48 | listing the pools, each with its version, is the protocol's listing step |
| `WorkerSteps.AddStep` | internal/simulator/ownership.go:62-80 | storing the added finalizer, when the version listed is still the stored one, is the protocol's step and leaves the worker publishing the new version |
| `WorkerSteps.WriteStep` | internal/simulator/controller.go:126-210 | writing a slice with the pool's labels is a publishing step |
| `WorkerSteps.ListedStep` | internal/simulator/ownership.go:98-106 | passing over a listed slice, or deleting it when it belongs to the pool by what was listed, is the protocol's step, whatever has become of the slice |
| `WorkerSteps.ReleaseStep` | internal/simulator/ownership.go:108-118 | storing the pool without the finalizer, once nothing listed is left and if the version has not moved, is the protocol's step, and removes the pool when it was the last |
| `WorkerSteps.FinishStep` | internal/simulator/controller.go:212-242 | writing the status of a pool whose version has not moved is the protocol's step, whatever else the stored pool says |
| `ApiServer.DeletingIsLawful` | docs/operations/guide.md:133-151 | a user who deletes a pool between any two calls of a pass is among the others that the pass is proved against |
| `ApiServer.Cluster.Call` | internal/simulator/reconcile.go:30-54 | before each call others may have written; the steps recorded stay steps of the protocol and lead to what is stored |
| `ApiServer.Cluster.UpdatePool` | internal/simulator/ownership.go:62-80 | a pool is stored only over the version it was derived from, and gets a new version |
| `Reconciler.EnsureSlice` | internal/simulator/controller.go:189-210 | undisturbed, the slice becomes the wanted one, all its labels included, and is not written when it already is; disturbed or not, a write is a protocol step |
| `ApiServer.Cluster.DeleteSlice` | internal/simulator/ownership.go:156-162 | a missing slice counts as deleted |
| `Reconciler.ReconcileSlice` | internal/simulator/reconcile.go:179-220 | one node's slice is ensured, or deleted for a disappearing pool, by protocol steps; undisturbed, nothing else is touched |
| `Reconciler.ReconcileNodes` | internal/simulator/reconcile.go:75-96 | undisturbed, all target nodes are brought to the wanted state when their names differ, and active and published names are collected |
| `Reconciler.DeleteOwned` | internal/simulator/ownership.go:90-106 | undisturbed, exactly the slices that belong to the deleting pool go; disturbed or not, the list is worked off by protocol steps |
| `Reconciler.RemoveString` | internal/simulator/ownership.go:52-60 | all occurrences go, the rest keeps its order |
| `PoolStore.WithoutIsWithout` | internal/simulator/ownership.go:52-60 | exactly the removed value is missing from the result |
| `Reconciler.EnsureFinalizer` | internal/simulator/ownership.go:62-80 | the worker goes on with the pool as stored, finalizer included, or is refused; undisturbed, the finalizer is there afterwards and is not written twice |
| `Reconciler.UpdateStatus` | internal/simulator/controller.go:212-242 | undisturbed, the status is stored, and not written when it is equal; disturbed or not, the worker turns to the next pool only when the status was accepted or needed no write |
| `Reconciler.FinalizePool` | internal/simulator/ownership.go:82-118 | the finalizer goes only after the list is worked off; undisturbed, all owned slices are gone then |
| `Reconciler.ReconcileSpec` | internal/simulator/reconcile.go:75-108 | slices first, then the status; undisturbed, a pool whose slices and status are as wanted causes no write |
| `Reconciler.ReconcilePool` | internal/simulator/reconcile.go:56-109 | whatever others do, one pool's turn consists of protocol steps; undisturbed, the pool and its slices are brought to the wanted state, only its own names are touched, what goes is accounted for, a pool that is already so causes no write, and a fault is counted exactly for a live pool that is not healthy |
| `ReconcilePass.OthersAreLeftAlone` | internal/simulator/reconcile.go:42-48 | a pool's turn does not disturb what another pool wants |
| `ReconcilePass.StepSpares` | internal/simulator/ownership.go:98-106 | a turn takes a wanted slice away only when the pool claimed it by what was stored as the pass began |
| `ReconcilePass.StepTracked` | internal/simulator/reconcile.go:42-48 | after each turn, a wanted slice that was not deleted carries the labels of a pool dealt with, or is as when the pass began |
| `ReconcilePass.PoolAfterSettles` | internal/simulator/reconcile.go:56-109 | a pool that a pass has dealt with gives the next pass nothing to write |
| `ReconcilePass.ContestedNamesNeverSettle` | internal/simulator/reconcile.go:222-225 | no store satisfies two pools that share a slice name |
| `ReconcilePass.SharedNodeNamesNeverSettle` | internal/simulator/reconcile.go:222-225 | nor one pool two of whose nodes share one |
| `ReconcilePass.SliceNamesClash` | internal/simulator/reconcile.go:222-225 | concrete references and nodes with one slice name |
| `ReconcilePass.ContestsHappen` | internal/simulator/reconcile.go:222-225 | a store with two live pools that contest a slice name |
| `ReconcilePass.ClaimsHappen` | internal/simulator/ownership.go:98-106 | a store and listing with separate names in which a deleting pool claims a slice that a live pool wants |
| `ReconcilePass.Sweep` | internal/simulator/reconcile.go:227-242 | the sweep deletes no slice made active in the pass, whatever others do; undisturbed, exactly the managed slices that no pool made active go, and with none, nothing is written |
| `ReconcilePass.SettledHasNoOrphans` | internal/simulator/reconcile.go:227-242 | a settled store has nothing to sweep |
| `ReconcilePass.PassSettles` | internal/simulator/reconcile.go:30-54 | pools as the pass leaves them, slices as wanted and no orphans make a settled store |
| `ReconcilePass.PassIsTold` | internal/simulator/reconcile.go:30-54 | after a complete undisturbed pass pools are what `Contents.PoolAfterIsTold` says, every managed slice is some live pool's and, unless names are in dispute, slices are what `Contents.WantedIsTold` says |
| `ReconcilePass.FaultsAreUnhealthy` | internal/simulator/reconcile.go:39-52 | the faults counted are the live pools whose specs say that they are not healthy |
| `ReconcilePass.SettledIsSeparate` | internal/simulator/reconcile.go:30-54 | a store left settled means that no name was contested |
| `ReconcilePass.ReconcileAll` | internal/simulator/reconcile.go:40-52 | what `Reconcile` says of slices, pools and faults, up to the first failed call |
| `ReconcilePass.Reconcile` | internal/simulator/reconcile.go:30-54 | whatever others do between its calls and however it ends, a pass from an invariant state keeps the protocol's invariant at every step, so no slice is left without its guarded pool. When nobody else writes: a complete pass settles the store if and only if names are separate, leaving exactly one slice per live, non-disappearing pool and node; pools, and then slices, hold what the stored specs say (`ReconcilePass.PassIsTold`); on a settled store it writes nothing; even an aborted pass keeps foreign slices and deletes no unclaimed wanted slice, and a complete one does delete a claimed one; an unknown pool type ends it quietly without a write; without API failure it completes. The fault count is the number of live pools whose specs are not healthy when complete and unchanged otherwise |
| `LeaderLifecycle.NextKeepsInv` | cmd/draforge-controller/leader_election.go:160-206 | every step of either side keeps the invariant |
| `LeaderLifecycle.LifecycleSafety` | cmd/draforge-controller/leader_election.go:160-262 | in every interleaving the active function starts at most once, at most one completion value is sent, and the lifecycle returns only when the leader flag is off and no function is running, with the completion value of the one that ran or no error when none did |
| `LeaderLifecycle.NothingStartsAfterReturn` | cmd/draforge-controller/leader_election.go:160-206 | after the lifecycle has returned nothing starts and the flag stays off |
| `LeaderLifecycle.AlwaysAStep` | cmd/draforge-controller/leader_election.go:160-262 | once the active function has ended and until both sides are through, a step is possible |
| `LeaderLifecycle.EveryStepLeadsOn` | cmd/draforge-controller/leader_election.go:160-262 | each such step brings them closer to the end and no step takes them back |
| `LeaderLifecycle.BothSidesFinish` | cmd/draforge-controller/leader_election.go:160-262 | after seven such steps at most, both are through |
| `LeaderLifecycle.CompletionIsNoError` | cmd/draforge-controller/leader_election.go:242-269 | no error is reported exactly when the function stopped because its context was done |
| `LeaderLifecycle.CompletionIsOwnError` | cmd/draforge-controller/leader_election.go:242-269 | what is reported is the active function's own error, or that it stopped unexpectedly when it gave none while its context went on |
| `GraphIdentity.GraphID` | internal/graph/graph.go:43-50 | the loop and join produce the length-prefixed encoding |
| `GraphIdentity.PartsRoundTrip` | internal/graph/graph.go:43-50 | decoding recovers every list of parts, whatever they contain |
| `GraphIdentity.RoundTrip` | internal/graph/graph.go:43-50 | kind and parts are recovered exactly when the kind has no slash |
| `GraphIdentity.EncodingInjective` | internal/discovery/discovery.go:389-396 | within one kind, equal identities mean equal parts, for lists of any length |
| `GraphIdentity.SlashedKindAmbiguous` | internal/graph/graph.go:43-50 | two different inputs with one identity when a kind has a slash |
| `GraphIdentity.MissingIsNeverReal` | internal/graph/graph.go:56-62 | a missing device's identity is never a device's, not even for a device named "missing" |
| `GraphIdentity.DeviceIdentity` | internal/graph/graph.go:52-62 | two devices, both present or both missing, have one identity only when driver, node, pool and name agree |
| `GraphIdentity.KindsDiffer` | internal/graph/graph.go:52-66 | no allocation has the identity of a device |
| `GraphIdentity.AllocationIdentity` | internal/graph/graph.go:64-66 | equal allocation identities mean equal claims, indices and devices |
| `GraphIdentity.KeyIdentifiesDevice` | internal/simulator/allocation_plan.go:673-675 | without NUL in names, equal index keys mean the same driver, pool and device; elsewhere the index is therefore keyed by the triple |

## Left out

- Selector compilation and evaluation (internal/draeval): one uninterpreted function.
- Event recording, printed messages and failure texts: a failure is its reason only.
- Context cancellation inside the planners.
- Fractional quantities: `Value()` rounds them up before anything modelled here sees them.
- The individual unsupported device and slice fields: one flag each, `partitioned` and `multiNode`.
- The node selector stored with an allocation: the node's name stands for it.
- `Backtracking.ExploreComplete`: nothing is claimed when the search fails, since it may fail although there is a solution (`Examples.SearchGivesUp`); when it cannot fail is the subject of `Aborts`.
- `Aborts.FittingSearchDecides`: only a sufficient condition; a search outside it may still reach a plan before it would fail.
- `Choices.AllMovesComplete`: a node whose devices cannot be evaluated is not admissible for an All alternative; the program may skip it and still report no match when the result limit masks its failure (internal/simulator/allocation_constraints.go:516-524).
- `Greedy.PlanUnconstrained`: no completeness over several requests, since it is false (`Examples.GreedyMisses`).
- `Runs.RunsStayWithinCapacity`: a device's record never changes in the run; a pool that shrinks a device's capacity under existing shares is outside the program's control.
- `UsageMaps.AttemptUsage.Clone`: the two sets of device keys are values held by the usage object, which stands for the two maps.
- `FinalizerProtocol.EveryStateIsSafe`: users do not strip the cleanup finalizer and do not forge uid labels; both would defeat any such protocol.
- `ReconcilePass.Reconcile`: what a pass converges to is stated for a pass during which nobody else writes; when others do, only safety is. A slice's resource version is stood for by its value: an update is refused when the slice has changed since it was read. Whether a failed listing means that the pool type is not installed is a parameter, as it is read from the error's text.
- Attributes and capacities of a pool spec that fail to parse: a spec holds those that parse.
- `LeaderLifecycle.LifecycleSafety`: exclusion between processes rests on lease timing in client-go and is not part of the model; neither is the single-process lifecycle without leases.
- The event controller, its workqueue and the error policy: the rest after client-go is counter bookkeeping.
- The driver's CDI files, the servers, user interfaces, discovery mapping, health and redaction: no state machine or search to prove anything hard about.
