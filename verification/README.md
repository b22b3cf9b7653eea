# Verified models of the knowledge graph's algorithmic cores

The project models, in Dafny, the parts of the repository whose correctness rests on an
algorithm or a protocol rather than on plumbing, and proves what they promise.

- **Ariadne refinement** (`Paths`, `Refinement`, `Adjacency`, `Ariadne`, `Semantic`, `Sums`,
  `Modularity`, `Community`, `Detector`): splitting communities into connected components
  with a breadth-first search. The loops are proved equal to a mathematical refinement, and
  that refinement is shown exact, coarsest, canonical, idempotent, blind to semantic
  re-weighting, and never worse in modularity or coverage.
- **Mnemosyne detection** (`Mnemosyne`, `Matrices`, `Aggregation`, `Levels`, `Choices`, `Ties`):
  the greedy local moves, the collapse into super-nodes and the loop over levels. Each move
  raises modularity by exactly its gain, so the sweeps end and end locally optimal; collapsing
  changes no score; the result is better than one community per node wherever a single move
  is; and a listing of a graph has one outcome, the graph itself one unless there are ties.
- **Outbound guards** (`RateLimiter`, `CircuitBreaker`): the token bucket as an exact test for
  a burst/rate envelope, the breaker as an exact function of its history, the retry loop.
- **Entity merge** (`Curation`): the nested loops that rewrite four tables, over the foreign
  keys of the schema: what the rewrite keeps wherever it stops, and exactly when it finishes.
- **Agent protocol** (`Budget`, `Ledger`, `Coordinator`, `Workers`): one run on one thread as
  methods over a ledger object, and the pool of workers as a state machine in which the write
  to the table and the append to the log are separate steps that interleave in any way.
- **Measurement** (`Levenshtein`, `SceneMatching`, `RandIndex`, `Reachability`,
  `TokenEstimator`, `RankFusion`, `Scoring`): the scripts whose published figures rest on a
  theorem about the loop that computes them. `Ordering` is Python's `sorted` and its order of
  strings, `Numerals` its decimal numerals.

Objects the source updates in place are classes, loops are methods with invariants, and each
is proved against a specification about which the main results are then lemmas.

## What the proofs found

- The merge (`src/dkg/agents/curation.py:36-49`) rewrites mentions, claims and relationships
  but not `events.subject_id`, which also refers to entities
  (`src/dkg/core/migrations/001_baseline.sql:161`) and has no delete action. With foreign keys
  on, deleting a duplicate that an event names is refused half way through the run.
  The schema leaves that table empty by default and no code of the repository writes to it, so
  this takes event rows written from outside.
  `Curation.Database.Run` states the exact condition and `Curation.EventBlocksMerge` an
  instance; `Curation.FinishesInEveryOrder` gives the condition that does not depend on the
  order in which rows are listed.
- `src/dkg/graph/community.py:14-16` promises that a given graph always yields the same partition.
  One listing of its edges does (`Choices.ListingFixesCommunities`). Between listings a tie of two
  neighbouring communities, neither the node's own, goes to the one that comes first in a
  dictionary and so in the edge list: `Ties.TwoOutcomes` lists the same edges in two orders and
  gets two partitions. The local moves run alike for all orders of the edges if and only if their
  run meets no tie (`Choices.SameRunIffUntied`), and a detection that meets none has its communities
  in every listing (`Choices.SameGraphSameCommunities`).
- The ids of `src/dkg/graph/community.py:187-189` follow the names of the last level as strings, so
  that a community numbered 10 there gets a lower id than one numbered 2 (`Numerals.TenBeforeTwo`).
  They follow the numbers where these have equally many digits, as at a level of at most ten
  super-nodes, or of at most ten communities that has moved nothing; `Levels.IdsFollowNumerals`
  states the order in general. A number is the position of one of the level's super-nodes, so it
  can be above nine when a level that moves something is the last and leaves few communities.
- The units recorded for a run lie within its budget if and only if the budget is not negative
  (`Coordination.Judge`): under a negative budget every run is an error that records zero.
- A run that overruns its time or budget is recorded as having used nothing, whatever it used.
- `with_retry` with `attempts` below one still makes one call, and sleeps after it fails.
- A breaker with a threshold below one behaves as one with threshold one.
- `_refine` promises connectivity in the structural graph but is given the re-weighted edges;
  `Semantic.ReweightingCannotChangeRefinement` shows the promise holds all the same.

## Model

| member | source | states |
|---|---|---|
| Ariadne.Refine | src/dkg/ariadne/detector.py:41-81 | The breadth-first splitting returns exactly the mathematical refinement, ids included, for every assignment and edge list; names are compared as Ordering.BeforeIsByCodePoint says |
| Ordering.BeforeIsByCodePoint | src/dkg/ariadne/detector.py:66 | One name comes before another exactly when it is a proper prefix of it or has the lower code point at the first place where they differ |
| Ariadne.BuildAdjacency | src/dkg/ariadne/detector.py:49-54 | The two-way dictionary has an entry exactly for the pairs of different nodes that a positive edge joins, and holds their summed weight |
| Adjacency.WeightSigns | src/dkg/ariadne/detector.py:50-54 | Accumulated weights are symmetric and non-negative, and positive exactly where a positive non-self edge joins the pair |
| Adjacency.HoldsOneMore | src/dkg/ariadne/detector.py:50-54 | Skipping a self or non-positive edge, or adding both arcs of any other, keeps the map equal to the summed weights of one more edge |
| Adjacency.HoldsLinks | src/dkg/ariadne/detector.py:74 | The neighbours the search walks are exactly the linked nodes |
| Ariadne.GroupByCommunity | src/dkg/ariadne/detector.py:56-58 | Each community id is mapped to a duplicate-free list of exactly its nodes |
| Ariadne.Explore | src/dkg/ariadne/detector.py:68-77 | The queue search collects exactly the start's connected component inside its community and marks exactly that as seen |
| Ariadne.RefineStart | src/dkg/ariadne/detector.py:68-80 | One unseen start gives its whole component the next id and changes no other node |
| Ariadne.RefineCommunity | src/dkg/ariadne/detector.py:62-80 | Taking the starts of one community in sorted order numbers its components in the order of their least nodes |
| Refinement.RefinedIsExact | src/dkg/ariadne/detector.py:41-81 | Two nodes share an id if and only if they share a community and a path of links joins them inside it; ids are ordered by old community, then least member |
| Refinement.RefinedIdsAreConsecutive | src/dkg/ariadne/detector.py:61-80 | The ids used are exactly 0 to k-1, k being the number of parts |
| Refinement.RefinedIsWellConnected | src/dkg/ariadne/detector.py:44-47 | The result refines the assignment and each of its classes is connected within itself |
| Refinement.RefinedIsCoarsest | src/dkg/ariadne/detector.py:42-47 | Any connected refinement of the assignment refines the result |
| Refinement.RefinedChangesNothingIff | src/dkg/ariadne/detector.py:42-47 | Nothing is split if and only if every community was connected already |
| Refinement.RefinedIdempotent | src/dkg/ariadne/detector.py:41-81 | Refining twice is refining once, ids included |
| Refinement.RefinedIgnoresEdgeOrder | src/dkg/ariadne/detector.py:49-54 | Permuting the edges leaves the result, ids included, as it is |
| Refinement.RefinedIgnoresEdgeShape | src/dkg/ariadne/detector.py:49-54 | Edge lists that link the same pairs, whatever direction, weight or repetition, give the same result |
| Refinement.RefinedIgnoresSplitting | src/dkg/ariadne/detector.py:53-54 | Splitting a positive edge into two of either direction leaves the result as it is |
| Semantic.CauchySchwarz | src/dkg/adapters/embedding.py:458-461 | The squared inner product of two vectors is at most the product of their squared lengths |
| Semantic.CosineInRange | src/dkg/adapters/embedding.py:455-461 | For vectors of one length the cosine raises nothing and lies between -1 and 1, zero vectors included |
| Semantic.DotFromFront | src/dkg/adapters/embedding.py:458 | The inner product is the sum of the products coordinate by coordinate, from either end |
| Semantic.Similarity | src/dkg/ariadne/detector.py:93-95 | Zero unless both ends are embedded; otherwise the greater of zero and the cosine, or the error of vectors of different length |
| Semantic.Augment | src/dkg/ariadne/detector.py:84-97 | The call raises, with the message of the cosine, exactly when some edge joins two embedded nodes of different dimension; otherwise edge i keeps its ends and its weight is multiplied by one plus its similarity, so a non-negative weight w becomes one between w and 2w |
| Semantic.ScaledIsReweighted | src/dkg/ariadne/detector.py:92-96 | Scaling by 1 + max(0, cosine) keeps every weight within a factor of two and its sign |
| Semantic.ReweightingCannotChangeRefinement | src/dkg/ariadne/detector.py:167-173 | Refining on the semantic weights equals refining on the structural edges, so the classes are connected in the structural graph |
| Community.FromEdges | src/dkg/graph/community.py:39-52 | Nodes come out sorted and distinct; adjacency and loops hold exactly the summed positive weights between present nodes, and each row lists its neighbours in the order in which the edges first name them |
| Community.TotalWeight | src/dkg/graph/community.py:57-59 | Half the arc weights plus the loops, for an adjacency visited in any order |
| Community.ModularityScore | src/dkg/graph/community.py:104-120 | The two accumulation loops compute Newman-Girvan modularity as a sum over community labels; 0 on a graph without weight |
| Community.CoverageScore | src/dkg/graph/community.py:123-134 | The loop computes the fraction of weight inside communities; 0 on a graph without weight |
| Community.ClassTables | src/dkg/graph/community.py:108-116 | The dictionaries hold, per community, its total degree and inside weight |
| Community.AddHalves | src/dkg/graph/community.py:113-116 | A node contributes its loop and half of each arc that stays in its community |
| Modularity.ModularityClosedForm | src/dkg/graph/community.py:104-120 | Modularity is inside weight over m minus resolution over 4m^2 times the degree products of all same-community pairs |
| Modularity.ModularityFormula | src/dkg/graph/community.py:104-120 | On a graph with weight, modularity is the inside weight over m, less resolution times the degree products of all ordered pairs of nodes that share a community, over 4m^2 |
| Modularity.SquaresArePairs | src/dkg/graph/community.py:118-119 | The sum of squared community degrees equals the sum of degree products over same-community pairs |
| Modularity.FinerPairSum | src/dkg/graph/community.py:118-119 | A finer partition never has a larger degree-pair sum |
| Modularity.InsideUnchanged | src/dkg/graph/community.py:113-116 | Splitting along components leaves each node's inside weight as it is |
| Modularity.RefinementNeverHurts | src/dkg/ariadne/detector.py:106-108 | For non-negative resolution, refining an assignment keeps coverage and never lowers modularity |
| Mnemosyne.LocalMove | src/dkg/graph/community.py:62-101 | The sweeps end for every graph, start and resolution, and what they did is a run of visits in node order, each as MoveNode states; the result uses no new labels, no node can gain by moving to a neighbouring community, and it is strictly better than the start, and reported as a change, exactly when the start was not such an optimum; otherwise it is the start |
| Mnemosyne.MoveNode | src/dkg/graph/community.py:75-100 | One visit takes the node to the neighbouring community that raises modularity most, or leaves it where no neighbouring community would raise it; in the order of the row a neighbour of the community chosen comes before any whose community would be as good; sigma_tot stays the communities' true degrees |
| Mnemosyne.ChosenIsMetFirst | src/dkg/graph/community.py:79-95 | Every neighbour listed before the first of the community chosen is in a community that is strictly worse to join |
| Mnemosyne.Pass | src/dkg/graph/community.py:73-100 | One pass either improves modularity or leaves every node where it is best off |
| Mnemosyne.BestClass | src/dkg/graph/community.py:87-95 | The comparison loop finds the first community of greatest gain in the order of the dictionary and keeps the current one unless another is strictly better |
| Mnemosyne.WeightsTo | src/dkg/graph/community.py:79-82 | The dictionary holds exactly the neighbouring communities and the weight into each, in the order in which the row first meets them |
| Mnemosyne.SigmaTotals | src/dkg/graph/community.py:66-69 | The dictionary starts as the total degree of every community |
| Mnemosyne.GainIsModularity | src/dkg/graph/community.py:87-94 | The difference of the gains compared is exactly m times the change in modularity of the move |
| Mnemosyne.GreaterGainImproves | src/dkg/graph/community.py:83-95 | A move raises modularity if and only if its gain is strictly greater than that of staying |
| Mnemosyne.GreaterGainWins | src/dkg/graph/community.py:87-94 | Of any two communities for a node, the one with the greater gain leads to the greater modularity, and equal gains to equal modularity |
| Mnemosyne.InsideAfterMove | src/dkg/graph/community.py:79-82 | A move changes the weight inside communities by the weight into the new community less that into the old |
| Mnemosyne.PairsAfterMove | src/dkg/graph/community.py:66-69 | A move changes the degree pairs by twice the degree times the difference of the degrees joined and left |
| Mnemosyne.FewerAbove | src/dkg/graph/community.py:83-86 | Each improvement leaves strictly fewer assignments to improve to, so there is no oscillation |
| Aggregation.Aggregate | src/dkg/graph/community.py:137-154 | One super-node per community; arcs carry exactly the weight between two communities, loops the loops and edges inside one; each row lists its neighbours in the order in which the members' rows first lead there |
| Aggregation.AddRowOf | src/dkg/graph/community.py:144-153 | Adding one node's arcs extends the collapsed weights, and the order of their keys, by exactly that row |
| Aggregation.CollapseKeepsScores | src/dkg/graph/community.py:137-154 | Every partition of the super-nodes has the modularity and coverage, on the collapsed graph, of the partition of the nodes it stands for |
| Aggregation.TotalCollapses | src/dkg/graph/community.py:138 | Collapsing loses and makes no weight |
| Aggregation.DegreesCollapse | src/dkg/graph/community.py:137-154 | A super-node's degree is the sum of its members' degrees |
| Aggregation.TotalIsHalfDegrees | src/dkg/graph/community.py:54-59 | The total weight is half the sum of all degrees |
| Matrices.WithinCollapses | src/dkg/graph/community.py:147-153 | For any weights and loops, the weight within coarser classes may be counted on the collapsed classes |
| Levels.Detect | src/dkg/graph/community.py:157-196 | Every node gets a community, communities are numbered from 0 without gaps, in the order of the numerals of their numbers in the last level and so in that of the numbers where that level has at most ten super-nodes, or at most ten communities and has moved nothing; the figures reported are those of the partition, the modularity is the one the last level reached, and the outcome is that of a climb through the levels, which the listing of nodes and edges determines; it never scores below one community per node and, given a level to run, scores above it exactly when moving some node to a neighbouring one improves on that |
| Levels.IdsFollowNumerals | src/dkg/graph/community.py:177-189 | A node of the community numbered c is named "L<level>:<c>" at the last level, and of two nodes the one with the earlier numeral has the lower id; that is the lower number where the numerals are equally long, as they are with at most ten super-nodes, or at most ten communities each a single super-node |
| Levels.SuperNameOrder | src/dkg/graph/community.py:177 | The names of one level are a letter, the level, a colon and the number, and come in the order of the numerals of the numbers |
| Numerals.Decimal | src/dkg/graph/community.py:177 | A number is written with digits only, without a leading zero, and reading them back by code point, base ten, gives the number |
| Numerals.NumeralUnique | src/dkg/graph/community.py:177 | No other such string reads back as the same number |
| Numerals.SameLengthOrder | src/dkg/graph/community.py:187 | Numerals of equal length sort as their numbers do |
| Numerals.TenBeforeTwo | src/dkg/graph/community.py:187 | Of different lengths they need not: "10" sorts before "2" |
| Levels.Climb | src/dkg/graph/community.py:169-184 | What the loop did is a sequence of levels, the first on the graph itself and each later one on the collapse of the one before, that ends with the first that changes nothing or gains no more than 1e-12, or with the last allowed |
| Levels.LevelsReach | src/dkg/graph/community.py:169-184 | However many levels were climbed, the nodes grouped by their super-node score above one community per node if the first level moved anything, and otherwise no two nodes are together |
| Levels.LevelScores | src/dkg/graph/community.py:170-184 | What a level scores on its super-nodes is what the original nodes, grouped by where it takes them, score |
| Levels.LevelsRise | src/dkg/graph/community.py:170-184 | From level to level the score never falls, and rises exactly where the level moved something |
| Levels.LevelsAreFaithful | src/dkg/graph/community.py:178-184 | At every level of a climb, any partition of the super-nodes scores there what it means for the original graph |
| Levels.LevelIsFaithful | src/dkg/graph/community.py:178-184 | Level after level, any partition of the super-nodes scores what it means for the original nodes |
| Levels.RelabellingKeepsScore | src/dkg/graph/community.py:186-190 | Modularity depends on the partition and not on its labels |
| Levels.RelabelledOptimal | src/dkg/graph/community.py:186-190 | Being locally optimal, too, depends on the partition and not on its labels |
| Levels.AlikeScores | src/dkg/graph/community.py:39-52 | Two graphs of the same edges give every assignment the same modularity and coverage, whatever empty rows they hold |
| Levels.SuperNameInjective | src/dkg/graph/community.py:177 | Different communities of a level get different super-node names |
| Levels.Compact | src/dkg/graph/community.py:187-189 | Numbering the final labels keeps the partition, follows the order of the super-node names and uses each index below the count |
| Choices.SameRunIffUntied | src/dkg/graph/community.py:72-101 | For a graph of given edges and a start, the local moves run the same on every reordering of the edges if and only if no visit of the run meets a tie: two neighbouring communities, neither the node's own, with equal greatest gain above staying |
| Choices.ListingFixesRun | src/dkg/graph/community.py:72-101 | One listing of nodes and edges has one run of the local moves from a start |
| Choices.BothBestAreRivals | src/dkg/graph/community.py:83-95 | Two different communities can both be best for a node only if they tie |
| Choices.CollapsesAlike | src/dkg/graph/community.py:137-154 | Collapsing the same communities of the same graph gives the same graph |
| Choices.ListingFixesCommunities | src/dkg/graph/community.py:14-16 | One listing of nodes and edges has one outcome, whatever ties it meets |
| Choices.SameGraphSameCommunities | src/dkg/graph/community.py:157-196 | If no visit of a detection meets a tie, every listing that puts the same weight between the same nodes gives the same communities |
| Choices.SplitWeights | src/dkg/graph/community.py:44-51 | Splitting an edge into two, one of them turned around, leaves all weights as they are |
| Ties.TwoOutcomes | src/dkg/graph/community.py:14-16 | The same three nodes and four edges, listed in two orders: whatever number of levels is allowed, the detector run on the one returns a partition that puts "a" with "b", and on the other one that puts "a" with "c" |
| Detector.Partition | src/dkg/ariadne/detector.py:167-198 | The detection for given re-weighted edges: the result is the refinement, along the structural edges, of what the base detector, allowed 50 levels, finds at the chosen resolution; that is the one asked for or, without one, the one of the five in the sweep whose refined partition no other beats in rounded modularity, then in fewer communities, and no earlier one equals in both; every node is assigned, classes are connected in the structural graph, and the score is their structural modularity |
| Detector.AutoResolution | src/dkg/ariadne/detector.py:100-115 | Of the candidates, refined, none has a higher rounded structural modularity than the one returned, none with an equal one has fewer communities, and no earlier one equals it in both; the resolution is the one at its position in 0.5, 0.75, 1, 1.5, 2 |
| Detector.DetectionKeepsStructure | src/dkg/ariadne/detector.py:167-198 | Detected on re-weighted edges, the refined communities are connected structurally, cover as much weight as the coarse ones and score at least as high |
| Detector.UnweightedNeverHurts | src/dkg/ariadne/detector.py:167-198 | Detected on the structural edges at a non-negative resolution, the refined partition scores on the structural graph at least what one community per node scores, and more wherever a move improves on that |
| Detector.Assemble | src/dkg/ariadne/detector.py:200-214 | Each refined id is listed once with exactly its nodes, ascending and each once; larger communities first, then lower id |
| RateLimiting.RateLimiter.Make | src/dkg/adapters/connectors.py:24-30 | Construction raises exactly for a non-positive rate or burst; otherwise the bucket starts full with no calls |
| RateLimiting.RateLimiter.Take | src/dkg/adapters/connectors.py:32-40 | A request is granted if and only if in every window open since construction or since any call, and the one opening now, it stays within burst plus rate times length |
| RateLimiting.RateLimiter.Refill | src/dkg/adapters/connectors.py:36 | The refilled count is the lesser of the burst and the count plus what has flowed in |
| RateLimiting.RefillDecides | src/dkg/adapters/connectors.py:36-37 | With the count equal to the least slack of all windows, comparing the request with the refilled count decides conformance, both ways |
| RateLimiting.CallKeepsLeastSlack | src/dkg/adapters/connectors.py:36-38 | After every call, granted or refused, the count is again the least slack of all windows |
| RateLimiting.TakeStep | src/dkg/adapters/connectors.py:32-40 | One call keeps the whole invariant of the run: order of times, least slack, no window over its envelope |
| RateLimiting.NoWindowExceedsEnvelope | src/dkg/adapters/connectors.py:32-40 | Over any run and any interval [s, t], at most burst + rate * (t - s) tokens are granted |
| CircuitBreaking.CircuitBreaker.Allow | src/dkg/adapters/connectors.py:50-53 | Calls are refused if and only if some trip lies less than the cooldown back |
| CircuitBreaking.CircuitBreaker.RecordFailure | src/dkg/adapters/connectors.py:58-62 | The failure is added to the history, the count stays below the threshold, and the object still tracks its history |
| CircuitBreaking.CircuitBreaker.RecordSuccess | src/dkg/adapters/connectors.py:55-56 | The success is added to the history, the count is zero, and the object still tracks its history |
| CircuitBreaking.TripsCostFailures | src/dkg/adapters/connectors.py:58-62 | Over any history, trips times threshold plus the failures counted now never exceed the failures recorded |
| CircuitBreaking.CountSinceReset | src/dkg/adapters/connectors.py:55-62 | The failures counted are those since the later of the last success and the last trip |
| CircuitBreaking.UnbrokenFailuresTrip | src/dkg/adapters/connectors.py:58-62 | n failures without a success trip exactly n / threshold times |
| CircuitBreaking.LastTripIsLatest | src/dkg/adapters/connectors.py:58-62 | The recorded last trip is a failure that tripped, and none tripped after it |
| CircuitBreaking.OpenWhileRecentTrip | src/dkg/adapters/connectors.py:50-62 | The breaker is open exactly while some trip lies less than the cooldown back |
| CircuitBreaking.SuccessNeverCloses | src/dkg/adapters/connectors.py:55-56 | A success changes neither the time the breaker opens again nor the number of trips |
| CircuitBreaking.WithRetry | src/dkg/adapters/connectors.py:72-89 | Returns the first success among max(1, attempts) calls, or fails after all of them; sleeps between calls, and after the last failed one exactly when attempts is below one; apart from its jitter the first sleep is the base delay and each later one twice the one before, so that n sleeps come to base * (2^n - 1), plus at most n jitters |
| CircuitBreaking.DelaysAreGeometric | src/dkg/adapters/connectors.py:87 | n delays come to base * (2^n - 1), plus at most n jitters |
| Curation.Database.Run | src/dkg/agents/curation.py:18-56 | A run finishes if and only if no event names an entity that the store lists after another of the tenant with the same canonical name and kind; finished, no two entities of the tenant share both, the tables are the fully merged ones and the report names each removed entity with its keeper, as many as the entities lost; refused, it stopped half way as described; always, references stay whole and rows keep their meaning |
| Curation.Database.MergeGroup | src/dkg/agents/curation.py:31-51 | The inner loop merges and reports exactly the listed duplicates after the first, or stops at the first one an event names |
| Curation.Database.MergeOne | src/dkg/agents/curation.py:35-51 | Rewriting and deleting one duplicate is refused exactly when an event names it; otherwise every reference follows the keeper and no other row is lost |
| Curation.Database.Redirect | src/dkg/agents/curation.py:37-48 | After the updates towards another entity nothing but an event names the duplicate, no row is lost, rows that did not name it are as they were, and if the other entity exists foreign keys that held still hold |
| Curation.Database.DeleteEntity | src/dkg/core/migrations/001_baseline.sql:104-162 | It is refused exactly when a claim or an event has the entity as its subject; if it goes through, the entity is gone, nothing names it, and every row that did not name it is as it was; where no reference dangled it is refused exactly when going through would leave one dangling |
| Curation.RefusalIsNeeded | src/dkg/core/migrations/001_baseline.sql:104-162 | With no reference dangling, a claim or event restricts a deletion if and only if the deletion would leave one dangling |
| Curation.RedirectStep | src/dkg/agents/curation.py:37-48 | After the updates for one more duplicate, every reference is where the finished merge wants it |
| Curation.RestrictsStep | src/dkg/agents/curation.py:49 | After its references are rewritten, only an event can still block the deletion of a duplicate |
| Curation.DeleteStep | src/dkg/agents/curation.py:49 | After its references are rewritten, deleting a duplicate cascades to no row |
| Curation.KeeperFacts | src/dkg/agents/curation.py:25-33 | The entity that stands for another has its tenant, canonical name and kind, and stands for itself; other tenants' entities stand for themselves |
| Curation.KeeperIsFirst | src/dkg/agents/curation.py:25-33 | The entity that stands for another of the tenant is listed before every other with the same canonical name and kind |
| Curation.SurplusIsListedLater | src/dkg/agents/curation.py:25-49 | The entities to be removed are exactly those listed after another of the tenant with the same canonical name and kind |
| Curation.FinishesIff | src/dkg/agents/curation.py:31-49 | No event names an entity listed after such another if and only if no event names an entity to be removed |
| Curation.MergeKeepsMeaning | src/dkg/agents/curation.py:36-49 | Wherever the merge stops, no reference dangles and every mention, claim and relationship names the same (tenant, canonical, kind) labels as before; events are untouched |
| Curation.FinishedIsUnique | src/dkg/agents/curation.py:18-49 | After a finished merge, two entities of the tenant with equal canonical name and equal kind are the same entity |
| Curation.FinishedKeepsEntities | src/dkg/agents/curation.py:33-49 | Every entity is still represented by one with the same label, other tenants' entities by themselves |
| Curation.SecondRunIsIdle | src/dkg/agents/curation.py:18-56 | A second run has nothing to remove and changes nothing, in whatever order the store lists rows |
| Curation.FinishesInEveryOrder | src/dkg/agents/curation.py:25-34 | The merge finishes whatever order the store lists rows in if and only if no event names an entity that has the canonical name and the kind of another of the tenant |
| Curation.EventBlocksMerge | src/dkg/core/migrations/001_baseline.sql:156-164 | Two duplicates, the second the subject of an event: the merge does not finish |
| Budgeting.BudgetAccount.Charge | src/dkg/agents/budget.py:15-22 | A charge goes through exactly when it is not negative and fits what remains, and is then added; a negative one is refused as "units must be non-negative", one too large with the code "dkg/budget/exceeded" and a message that names what is used, charged and allowed |
| Budgeting.SpentIsBounded | src/dkg/agents/budget.py:15-22 | Over any run of charges use never falls and stays between zero and the total, or zero under a negative total |
| Budgeting.ChargeFits | src/dkg/agents/budget.py:15-25 | A non-negative charge counts in full when it fits what remains and not at all otherwise |
| Budgeting.BudgetAccount.Remaining | src/dkg/agents/budget.py:24-25 | What remains is exactly the largest charge that still goes through |
| Ledgers.AgentLedger.Start | src/dkg/agents/ledger.py:29-64 | The new run gets its row, column by column, and its start event; log and table agree on it and still agree wherever they did |
| Ledgers.AgentLedger.Finish | src/dkg/agents/ledger.py:66-98 | The run's row, if there is one, changes in status, units, output and error, an empty error being stored as none; the log gets the verdict; log and table agree on it and still agree wherever they did |
| Ledgers.ReplayAppend | src/dkg/agents/ledger.py:106-111 | Appending an event changes what a reader of the log knows of that run only |
| Coordination.Judge | src/dkg/agents/coordinator.py:103-129 | Success is exactly an ok result within budget and time, timeout exactly one within budget but late; an exception keeps its message, under its own code if it is a BudgetExceededError and under "internal" otherwise, negative units give the code "internal", too many "dkg/budget/exceeded", lateness "timeout", and an admissible result keeps its own error and output; output is "{}" otherwise; units recorded lie between 0 and max(0, budget), and within the budget exactly when the budget is not negative |
| Coordination.Chosen | src/dkg/agents/coordinator.py:62-66 | The agent chosen is the first that handles the kind; none is chosen exactly when none does |
| Coordination.Coordinator.SelectAgent | src/dkg/agents/coordinator.py:62-66 | The search loop finds the first agent that handles the kind |
| Coordination.Coordinator.Execute | src/dkg/agents/coordinator.py:103-129 | Row, event and answer of a run all carry the same verdict on its outcome, charged through the budget account; the row changes in four columns, and the answer says the message, "timeout" or the agent's own error, with output only for an admissible result |
| Coordination.Coordinator.Fail | src/dkg/agents/coordinator.py:107-116 | A run ended by an exception is recorded as an error with no units and no output, under the code of a BudgetExceededError or "internal", and answered with the message |
| Coordination.Coordinator.One | src/dkg/agents/coordinator.py:142-148 | A task no agent handles records nothing and raises; any other leaves one final row, its two events and the matching answer |
| Interleaving.PoolSize | src/dkg/agents/coordinator.py:137 | The number of workers is, of the sizes from 1 to 32, the nearest to the requested number, or to the configured one when none or zero is requested |
| Interleaving.StepKeepsInv | src/dkg/agents/coordinator.py:131-148 | Every step of every worker keeps the invariant: rows and events of each task at its stage, runs owned by one task, other rows untouched, at most the pool's number of tasks at work |
| Interleaving.AlwaysInv | src/dkg/agents/coordinator.py:131-148 | The invariant holds in every state of every interleaving |
| Interleaving.RunIsRecordedOnce | src/dkg/agents/ledger.py:29-98 | At any time a run has logged a prefix of its one start and its one finish, its row is the opening or the final one, and log and table differ only for runs held by a busy worker |
| Interleaving.LogLagsByOne | src/dkg/agents/ledger.py:29-111 | At any time the log holds as many events of a run as its row calls for, one while it is running and two after, or one fewer; with all of them, or with the final one, it tells exactly what the row says |
| Interleaving.HistoryStays | src/dkg/agents/ledger.py:66-111 | In every interleaving the log only grows and a row that is no longer running never changes again |
| Interleaving.ExecutionIsBounded | src/dkg/agents/coordinator.py:131-148 | No interleaving takes more than five steps a task |
| Interleaving.NeverStuck | src/dkg/agents/coordinator.py:138-140 | While a task is not over, some task can take a step: the pool cannot deadlock |
| Interleaving.TableIsSequential | src/dkg/agents/coordinator.py:131-148 | However the workers interleaved, the table ends as if the tasks had run one after the other under the same ids |
| Interleaving.LogIsSequential | src/dkg/agents/ledger.py:106-111 | The log ends with the same events as the sequential run, for each run in the same order |
| Interleaving.ReplayIsTable | src/dkg/agents/ledger.py:66-111 | Replaying the log of a finished call gives the table's status and units for every run |
| Interleaving.FinishedCallIsSequential | src/dkg/agents/coordinator.py:131-148 | From start to end: sequential table and events, every added row final, within max(0, budget) units, and equal to what the log tells |
| Interleaving.Collect | src/dkg/agents/coordinator.py:139-140 | The list of answers, or the exception of a failed task exactly when some task failed |
| Interleaving.ResultsAreInOrder | src/dkg/agents/coordinator.py:138-140 | Result i is the answer to task i, from a run of its own with that task's final row; it is an exception exactly when no agent handles task i |
| Levenshtein.Lev | scripts/media_accuracy.py:33-43 | The one-row loop returns the least number of insertions, deletions and substitutions that turn one sequence into the other |
| Levenshtein.NextRow | scripts/media_accuracy.py:36-42 | The inner loop turns the array from one row of the distance table into the next, in place |
| Levenshtein.DistIsLeastScript | scripts/media_accuracy.py:33-43 | The recursive table is the least cost over all edit scripts: some script has that length and none is shorter |
| Levenshtein.DistZero | scripts/media_accuracy.py:33-43 | The distance is zero if and only if the sequences are equal |
| Levenshtein.DistSymmetric | scripts/media_accuracy.py:33-43 | The distance is symmetric |
| Levenshtein.DistTriangle | scripts/media_accuracy.py:33-43 | The distance obeys the triangle inequality |
| Levenshtein.DistBounds | scripts/media_accuracy.py:33-43 | The distance lies between the difference and the maximum of the lengths |
| Levenshtein.ErrorRate | scripts/media_accuracy.py:46-52 | An error rate is the distance over the reference length, or over one for an empty reference |
| Levenshtein.ErrorRateBounds | scripts/media_accuracy.py:46-52 | The rate is zero exactly on equality, at most one when the hypothesis is no longer, and never above longest over reference length |
| SceneMatching.MatchScenes | scripts/media_enrichment_accuracy.py:118-125 | The loop counts an injective matching within tolerance, never more than either list; where the cuts lie more than twice the tolerance apart, or both lists are in time order, it is a largest one |
| SceneMatching.MeasureScenes | scripts/media_enrichment_accuracy.py:114-127 | For the benchmark's own cuts, 1.5 apart, and any detections, in any order, the count is that of a largest matching within 0.6, and recall and precision are its shares of the cuts and of the detections |
| SceneMatching.SceneCutsAreSpread | scripts/media_enrichment_accuracy.py:115-116 | However many scenes, the cuts lie more than twice the tolerance apart |
| SceneMatching.SpreadIsMaximum | scripts/media_enrichment_accuracy.py:118-125 | For such cuts the greedy matching is a largest one whatever the order of the detections |
| SceneMatching.GreedyIsMaximum | scripts/media_enrichment_accuracy.py:118-125 | For cuts that lie apart, or lists in time order, the greedy matching is as large as any matching within tolerance |
| SceneMatching.Exchange | scripts/media_enrichment_accuracy.py:120-125 | Any matching that agrees with the greedy one so far can be changed to agree one cut further without losing size |
| RandIndex.RandScore | scripts/community_quality.py:41-47 | The pair loop counts agreeing pairs of all pairs; the score lies in [0,1], is 0 without pairs, and is 1 exactly when both assignments induce the same partition |
| RandIndex.ContingencyForm | scripts/community_quality.py:41-47 | Agreeing pairs equal C(n,2) - sum C(row,2) - sum C(column,2) + 2 sum C(cell,2) |
| RandIndex.AgreeSymmetric | scripts/community_quality.py:45 | Swapping the two assignments does not change the count |
| RandIndex.AgreeRelabelled | scripts/community_quality.py:45 | Relabelling either assignment does not change the count |
| RandIndex.PerfectIffSamePartition | scripts/community_quality.py:41-47 | Every pair agrees if and only if the two assignments group the nodes alike |
| RandIndex.AssignmentOf | scripts/community_quality.py:50-51 | Reading the reported communities back gives exactly the partition they were assembled from |
| Reachability.Reachable | scripts/resolution_accuracy.py:34-47 | Forward the search returns exactly the nodes at the end of a path of one or more edges; in reverse, exactly the nodes from which such a path leads to the start |
| Reachability.AdjacencySets | scripts/resolution_accuracy.py:35-38 | The map holds exactly the successors in the chosen direction |
| Reachability.ForwardReachable | scripts/flow_accuracy.py:85-97 | The list-based search returns the same set as the forward search of the other script |
| Reachability.ReverseIsConverse | scripts/resolution_accuracy.py:37 | v is forward-reachable from u if and only if u is reverse-reachable from v |
| Reachability.StartOnlyOnCycle | scripts/resolution_accuracy.py:39-47 | The start itself is returned if and only if it lies on a cycle |
| Reachability.ReachGrows | scripts/resolution_accuracy.py:34-47 | More edges never reach less, and what is reachable from a reachable node is reachable |
| TokenEstimator.EstimateFollowsRule | scripts/token_efficiency.py:47-71 | The greedy scan counts a quarter, rounded up, of each maximal letter run and one for each digit, newline and other visible character |
| TokenEstimator.ClassesByCodePoint | scripts/token_efficiency.py:54 | A character counts as a letter exactly by the code points of A-Z and a-z, and is not counted exactly if it is whitespace other than a newline |
| TokenEstimator.EstimateOfJoined | scripts/token_efficiency.py:54-71 | Joining two texts costs the sum of both less what the two meeting letter runs save, which is at most one |
| TokenEstimator.EstimateOfLines | scripts/token_efficiency.py:229 | A newline between two texts costs exactly one token more than the two |
| TokenEstimator.EstimateOfJoin | scripts/token_efficiency.py:145 | Text joined by newlines costs its parts plus one for each joint |
| TokenEstimator.FollowUp | scripts/token_efficiency.py:134-145 | The files opened are the first of the sorted names of those that exist, up to the cap, each once; the others are omitted, and without a cap none is; the text shows each file opened under a line with its name, one after the other |
| TokenEstimator.PresentNames | scripts/token_efficiency.py:140-141 | The names considered are exactly the named files that exist, ascending and without repetition |
| TokenEstimator.CapNeverCostsMore | scripts/token_efficiency.py:228-231 | Answer and capped sources never cost more than answer and all named sources |
| TokenEstimator.UncappedRatioNeverHigher | scripts/token_efficiency.py:249-251 | The ratio without a cap is never above the ratio with one, for any answer, files and cap |
| RankFusion.RrfFuse | scripts/retrieval_quality.py:69-79 | Each key of the lists appears once, with the item seen first and the sum of 1/(60 + rank) over its occurrences; scores descend, and ties keep the order of first appearance |
| RankFusion.Reciprocal | scripts/retrieval_quality.py:74 | What a hit adds, times 60 plus its rank, is one |
| RankFusion.AccumulateList | scripts/retrieval_quality.py:71-78 | The inner loop extends the table of keys and scores by exactly one list |
| RankFusion.ScoreIgnoresListOrder | scripts/retrieval_quality.py:71-78 | The score of a key does not depend on the order of the lists |
| RankFusion.FusionRespectsAgreement | scripts/retrieval_quality.py:69-79 | If one key stands above another in every list that has the other, it stands above it in the fusion |
| Scoring.Measure | scripts/language_accuracy.py:86-136 | An error exactly at the first file that cannot be parsed; otherwise per-file counts of each file, pooled counts, missed and spurious symbols of all files together |
| Scoring.MissedAndSpurious | scripts/language_accuracy.py:130-131 | Expected symbols are found or missed, extracted ones right or spurious, with multiplicity |
| Scoring.PerfectScores | scripts/language_accuracy.py:115-127 | Full precision, full recall and both together mean inclusion one way, the other way, and equality |
| Scoring.PoolingNeverLoses | scripts/language_accuracy.py:102-115 | The per-file correct counts sum to at most the pooled correct count |
| Scoring.PoolingCanGain | scripts/language_accuracy.py:102-115 | A symbol extracted from the wrong file is correct in the pool and in no file |
| Scoring.NamesMatchMore | scripts/language_accuracy.py:166-169 | Scoring names without kinds never finds fewer matches |

## Left out

- Choices.SameGraphSameCommunities: a tie need not change the communities found, and at later
  levels the order of the nodes can settle it whatever the order of the edges; which ties change
  the communities is not stated.
- Detector.UnweightedNeverHurts: with embeddings the communities are found on re-weighted edges,
  and what one community per node scores on those says nothing about the structural graph.
- Reading the graph from the store, `communities_combined` and its choice between detectors.
- Floating point and `round`: arithmetic is over reals, a square root is a non-negative real
  with the right square, and the rounding of scores in the resolution sweep is any function.
- The store: tables are maps from primary key to row, a statement is one step, and only the
  foreign keys into `entities` are modelled, not those into tenants or chunks.
- Curation.Database.Run: the listing order of the duplicate queries is one sequence for the whole run; the
  groups are disjoint, so this allows any order within each group, and the order of groups is
  left open by picking any.
- Curation.Database.Run: what a refused run had counted so far is not returned, as the exception discards it.
- Threads, clocks, sleeps and random numbers: times and random values are parameters, workers
  are interleaved steps. Fresh run ids and writes that do not raise are assumed; a ledger write
  that fails inside a worker is not modelled.
- Interleaving.NeverStuck: takes an unused run id as given, as `ulid_like` draws one.
- `submit`, the policy gate and cancellation: nothing is claimed about policy for `run_parallel`,
  which does not pass through it.
- Writers other than the workers of one call: no other process appends to the log meanwhile.
- Embedding models and `HashingEmbeddingAdapter.embed`: vectors are given.
- Display names and `_label`: they do not influence which nodes are listed together.
- `_wer` is the modelled error rate over word lists; `str.split` itself is not modelled.
- `_prf`, `_to_doc_ids`, `_norm`, `_mean`, `_named_paths` and the narration of the benchmarks:
  easy members or input and output.
- Module symbols are dropped before scoring: the model starts from the remaining symbols.
- The remaining adapters, the command line, media binaries, and the licence, checksum, secret
  and asset scripts: input and output, or one branch for each row.
