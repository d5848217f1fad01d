# A verified model of the JetStore compute pipes

This project models six parts of the compute pipes engine and proves what they are for. The original is
written in Go; the model is Dafny. Verify with `dafny verify dfyconfig.toml`.

**The clustering operator.** Columns of a file are nodes of a weighted graph; a Louvain partition groups
them. The operator never computes modularity: it compares a local gain per move, keeps an incremental array
of community degrees, and collapses communities level by level. `WeightedGraph` defines modularity, which
`ModularityMeaning` proves to be the textbook sum over node pairs, and proves that a move changes it by exactly 2/m2
times the gain difference.
`LocalMoving` carries this through candidate scans, passes and the pass limit; `Aggregation` proves that
collapsing preserves degrees, total weight and modularity; `Partition` puts the levels together and proves the
partition never scores below the singletons; `Connectivity` proves that a label never joins unconnected nodes.
The array-based methods are proved to compute these functions, so the result does not depend on map order.
`MergeOptimality` proves that no two communities of the result can be merged for more than the threshold of a move.
`ColumnGraph` and `Clusters` are the step around it: measured pairs in, clusters of columns out.

**The clustering score.** `Histogram`, `ClusteringPool` and `ClusteringPoolProofs` model the distributor, the
workers and the collector as atomic steps over bounded channels and prove, for every interleaving, that the
pooled statistics are a plain group-by of the rows; `ClusteringPoolTermination` bounds every run and proves that it
ends with the scores. `GroupByMeaning` counts those statistics in the rows, and
`Association`, `SampleAverage`, `InformationMeaning` and `PairScore` prove what the scores computed from them mean.
`RowsToClusters` joins the two halves: what links the columns of a cluster, in terms of the rows.

**Sharding.** `ShardAllocator` is the allocator that packs files into shards and cuts large text files into byte
ranges; `ShardReader` is the fixed-width reader that resumes at a range boundary; `ShardedRead` proves that the
two fit together without a coordinator, and exactly when they do not. `ShardPlacement` says into which shard a file
goes, `LineMeaning` what the lines of a text are.

**Multipart copy.** `CopyPlan` is the producer's arithmetic, `CopyProtocol` the producer, worker pool and collector, and
`CopyTermination` bounds every run and proves that the caller gets an answer.

**Header flags across steps.** `StagePath` is the backward worklist over the step graph of a document;
`StageDocument` says its verdict of the document itself.

**Column aggregates.** `ColumnAggregates` and `MapReduce` are the two-level aggregation, `AggregateMeaning` says what
it computes; `UniqueSplit` is the numbering of split values.

`Common`, `Sums` and `SortedSets` hold what the rest shares: options and walks over a set, finite sums, and the
collect-then-sort step.

Reals stand for `float64`, and `n ln n` and `ln` are parameters. Goroutines are steps over channel queues. The order
in which Go walks a map is a parameter that theorems quantify over, a choice left open in a method, or resolved by a
sort as in the source.

Where the code does other than its comments say or a reader may expect, the model follows the code:

- The drop-last-row rule tests `end < size`, which the last chunk (`end = size - 1`) also meets. The final line of
  a split file is therefore dropped as well; `ShardedReadIsExact` says so.
- A shard that is exactly full when a split begins yields the chunk (0, 0), which the readers take for the whole
  file (`FullShardReadsTwice`). An offset that reaches back to byte 0 or past it makes the second reader start over
  or fail (`SecondShardStartsOver`). `SplitReadsAllButLastIff` gives the exact condition, and `GuardIsBrokenInARun`
  gives listings on which the allocator breaks it: a file that fills the shard exactly, or to one byte less, before
  one that is split.
- The number of ranged parts of a copy is not always the number of chunks. `PartCountIff` gives the condition and
  `PartCountFails` an input for every chunk size, of chunk squared plus chunk less one bytes. With the chunk sizes in
  use the count is right for every object below 10,000 TiB (`ExtentCount`).
- After a part has failed for good the collector still asks to complete the upload with the parts that arrived.
  `CompletedIsPlanIff` says when these are the whole plan, and `PartialCompletionHappens` that they need not be.
  The caller gets the error all the same.
- The comment on the association scores says the operator partitions on symmetric uncertainty; the code uses the
  normalised dependency.

## Model

| member | source | states |
|---|---|---|
| ModularityMeaning.TextbookModularity | jets/compute_pipes/clustering_partition.go:16-19 | The objective is the textbook modularity: times m2, it is the sum over all ordered pairs in one community of A(u,v) - resolution * k_u * k_v / m2 |
| WeightedGraph.ModularityOfRelabelling | jets/compute_pipes/clustering_partition.go:63-72 | Modularity depends only on which nodes share a community, so renumbering communities never changes it |
| WeightedGraph.CommunityDegreeAfterMove | jets/compute_pipes/clustering_partition.go:164-186 | Subtracting the node's degree from its old community and adding it to the new one is the true change of every community's degree sum |
| WeightedGraph.MoveChangesModularity | jets/compute_pipes/clustering_partition.go:176-186 | Moving node x to community b changes global modularity by exactly 2/m2 times the difference of the two gains the code compares, for every graph, partition, node and target |
| LocalMoving.BestIsBest | jets/compute_pipes/clustering_partition.go:178-184 | The scan's winner is a candidate or the old community, beats the old one by more than the threshold when it differs, and no candidate beats it by more than the threshold |
| LocalMoving.TiesGoToTheLeast | jets/compute_pipes/clustering_partition.go:171-184 | A node that moves goes to the least of the equally good communities: every candidate with a smaller number has a smaller gain |
| LocalMoving.MoveNodeImproves | jets/compute_pipes/clustering_partition.go:159-191 | A moved node raises global modularity by more than 2e-12/m2; an unmoved node has no neighbouring community worth more than the threshold |
| LocalMoving.PassImproves | jets/compute_pipes/clustering_partition.go:157-194 | A pass that moves a node raises modularity by more than the step; a pass that moves none leaves the partition unchanged and locally optimal at every node |
| LocalMoving.TurnsInIndexOrder | jets/compute_pipes/clustering_partition.go:159 | The nodes take their turns in index order: after the first k turns the later nodes are where they were |
| LocalMoving.PassesImprove | jets/compute_pipes/clustering_partition.go:157-196 | The whole phase never lowers modularity, reports a move exactly when it raised it, and ends in a local optimum unless every one of the allowed passes gained a step |
| LocalMoving.PhaseMeaning | jets/compute_pipes/clustering_partition.go:157-196 | The phase makes whole passes from the singletons, at most 32, each of which moves something; if it stops earlier, a further pass would move nothing and no move into a neighbouring community gains more than 1e-12 |
| LocalMoving.BuildAdjacency | jets/compute_pipes/clustering_partition.go:129-145 | Adjacency lists and degrees accumulated edge by edge are the arcs and the weighted degree of each node, self-loops twice and non-positive edges not at all |
| LocalMoving.NeighbourWeights | jets/compute_pipes/clustering_partition.go:166-170 | The map holds exactly the candidate communities, each with the summed weight from the node into it |
| LocalMoving.ChooseBest | jets/compute_pipes/clustering_partition.go:166-184 | For every iteration order of the map, the chosen community is the winner over the sorted candidates with the true community degrees |
| LocalMoving.MoveOne | jets/compute_pipes/clustering_partition.go:159-191 | One node's turn on the arrays keeps commTot equal to the members' degree sums and performs exactly the specified move |
| LocalMoving.RunPass | jets/compute_pipes/clustering_partition.go:158-194 | A pass on the arrays keeps the commTot invariant and equals the specified pass |
| LocalMoving.LouvainOneLevel | jets/compute_pipes/clustering_partition.go:124-197 | The level as run, with its pass limit and early exits, equals the specified level |
| Aggregation.CoarseSum | jets/compute_pipes/clustering_partition.go:82-105 | Any additive, direction-blind measure summed over the collapsed edges equals its sum over the original edges with ends renamed |
| Aggregation.Handshake | jets/compute_pipes/clustering_partition.go:131-149 | Summing a measure over nodes by degree equals summing it over edges by their two ends, self-loops included |
| Aggregation.CoarseDegree | jets/compute_pipes/clustering_partition.go:82-105 | A super-node's degree is the sum of its members' degrees |
| Aggregation.CoarseM2 | jets/compute_pipes/clustering_partition.go:82-107 | Collapsing leaves the total weight unchanged |
| Aggregation.CoarseCommunityDegree | jets/compute_pipes/clustering_partition.go:82-107 | A community of super-nodes has the degree sum of the fine nodes it stands for |
| Aggregation.CoarseIntra | jets/compute_pipes/clustering_partition.go:82-105 | The weight inside the communities of a coarse partition is the weight inside the fine communities it stands for |
| Aggregation.CoarsePairMass | jets/compute_pipes/clustering_partition.go:82-105 | The degree-product mass of the coarse pairs that share a community is that of the fine pairs they stand for |
| Aggregation.CoarseModularity | jets/compute_pipes/clustering_partition.go:82-107 | Every partition of the collapsed graph has the modularity of the fine partition it stands for |
| Partition.RenumberIsDense | jets/compute_pipes/clustering_partition.go:109-118 | Renumbered labels are consecutive from 0 in order of first appearance |
| Partition.FirstAppearance | jets/compute_pipes/clustering_partition.go:65-72 | The map and list built in the loop are the ranks of first appearance |
| Partition.Aggregate | jets/compute_pipes/clustering_partition.go:82-105 | For every map order, the collected edges are the collapsed graph with sorted keys and summed weights |
| Partition.CoarsenIsSorted | jets/compute_pipes/clustering_partition.go:86-105 | The edges of the collapsed graph run from the smaller to the larger number, in lexicographic order |
| Partition.Relabel | jets/compute_pipes/clustering_partition.go:74-76 | The in-place update composes the labels with this level's renumbered communities |
| Partition.FinalRelabel | jets/compute_pipes/clustering_partition.go:109-118 | The in-place update renumbers the labels |
| Partition.MovedLevelImproves | jets/compute_pipes/clustering_partition.go:58-62 | A level that reports a move has positive total weight and raises modularity above the singletons by more than the step |
| Partition.MovedLevelShrinks | jets/compute_pipes/clustering_partition.go:73-81 | A level that reports a move leaves strictly fewer communities than nodes, so the break on equal counts is never taken and the loop terminates |
| Partition.LevelsImprove | jets/compute_pipes/clustering_partition.go:56-108 | Over any number of levels the labels have at least the modularity of the singletons, strictly more when the first level moved |
| Partition.LabelsImprove | jets/compute_pipes/clustering_partition.go:46-120 | The returned labels have at least the modularity of the singletons and are dense in order of first appearance |
| Partition.LouvainPartition | jets/compute_pipes/clustering_partition.go:48-120 | The imperative partitioner terminates and returns the specified labels for every graph |
| MergeOptimality.UnmovedIsOptimal | jets/compute_pipes/clustering_partition.go:59-62 | A level that moves nothing leaves the singletons, and they are locally optimal |
| MergeOptimality.LevelsAreMergeOptimal | jets/compute_pipes/clustering_partition.go:58-108 | For a resolution of at least 0, merging any two communities of the labels raises the modularity by no more than 2e-12/m2, over any number of levels |
| MergeOptimality.LabelsAreMergeOptimal | jets/compute_pipes/clustering_partition.go:48-120 | The same of the labels the partitioner returns |
| Connectivity.SharedLabelIsConnected | jets/compute_pipes/clustering_partition.go:163-186 | Nodes with one final label are joined by a walk over edges of positive weight |
| ColumnGraph.IndexColumns | jets/compute_pipes/clustering_cluster_info.go:104-117 | The names are the columns of the pairs without repeats in order of first appearance, and the index is their inverse |
| ColumnGraph.MeanIsSymmetric | jets/compute_pipes/clustering_cluster_info.go:122-140 | The sum and count behind an edge weight do not depend on which column of a pair is named first |
| ColumnGraph.MeanIsAverage | jets/compute_pipes/clustering_cluster_info.go:122-152 | The weight of a pair is the average of all its measurements, in either direction |
| ColumnGraph.GraphExactly | jets/compute_pipes/clustering_cluster_info.go:122-156 | An edge is in the graph if and only if its ends are distinct measured columns in index order and its weight is their positive mean |
| ColumnGraph.GraphIsValid | jets/compute_pipes/clustering_cluster_info.go:150-156 | The graph meets what the partitioner's theorems ask: known nodes and positive weights |
| ColumnGraph.BuildGraph | jets/compute_pipes/clustering_cluster_info.go:126-156 | The sum and count maps, walked in any order, give exactly that graph |
| Clusters.GroupColumns | jets/compute_pipes/clustering_cluster_info.go:163-180 | One group per label holding exactly its columns, each sorted, groups in order of their first members, for every map order |
| Clusters.LessStringMeaning | jets/compute_pipes/clustering_cluster_info.go:172-178 | Strings are ordered at the first place where they differ, a proper prefix first |
| Clusters.ClusterInfo.AddMember | jets/compute_pipes/clustering_cluster_info.go:26-33 | The member joins the cluster and brings exactly the configured tags that classify it |
| Clusters.TagMeaning | jets/compute_pipes/clustering_cluster_info.go:26-33 | A cluster's tags are the configured ones that classify a member; a column without a classification counts as classified by the empty string |
| Clusters.MakeClusters | jets/compute_pipes/clustering_cluster_info.go:100-189 | The clusters' members are the groups of the partition of the column graph, and a cluster's tags are those of its members |
| Clusters.EveryColumnInOneCluster | jets/compute_pipes/clustering_cluster_info.go:160-165 | A column is in some cluster if and only if it occurs in a measured pair, and never in two clusters |
| Clusters.SharedClusterIsSharedLabel | jets/compute_pipes/clustering_cluster_info.go:158-166 | Two columns share a cluster if and only if the partition at resolution 1 gives them one label |
| Clusters.SharedClusterIsLinked | jets/compute_pipes/clustering_cluster_info.go:150-166 | Two columns of one cluster are linked by a chain of pairs measured with a positive mean |
| Clusters.ClusteringImproves | jets/compute_pipes/clustering_cluster_info.go:158 | The clustering's modularity is at least that of leaving every column alone |
| MergeOptimality.ClustersAreMergeOptimal | jets/compute_pipes/clustering_cluster_info.go:158 | No two clusters of columns can be merged for more than 2e-12/m2 of modularity |
| Histogram.HistIsGroupBy | jets/compute_pipes/clustering_association.go:102-120 | The incremental histogram holds each value's number of occurrences, the total, and the sum of n ln n over the distinct values |
| Histogram.DistinctKeys | jets/compute_pipes/clustering_association.go:122-124 | The number of keys is the number of distinct values |
| Histogram.ValueHistogram.Add | jets/compute_pipes/clustering_association.go:115-120 | The three fields stay those of the histogram of all values added so far |
| Histogram.ValueHistogram.Counts | jets/compute_pipes/clustering_association.go:126-135 | In whatever order the map is walked, the counts are the occurrences of the distinct values, one each |
| Histogram.FoldOrderIndependent | jets/compute_pipes/clustering_association.go:62-73 | Folding the same groups in any order of arrival gives the same statistics |
| ClusteringPoolProofs.StepInv | jets/compute_pipes/clustering_pool_manager.go:247-344 | Every step of distributor, worker and collector keeps the pool invariant: each worker's histograms are those of the prefix of its group it has read, and the reports are exactly those passed |
| ClusteringPoolProofs.RunInv | jets/compute_pipes/clustering_pool_manager.go:247-344 | The invariant holds in every state of every run |
| ClusteringPoolProofs.RunKeepsChannels | jets/compute_pipes/clustering_pool_manager.go:284-300 | In every run at most one row waits for a worker and at most 100 reports for the collector |
| ClusteringPoolProofs.PoolComputesGroupBy | jets/compute_pipes/clustering_pool_manager.go:247-344 | For every run that reaches the scores, the statistics of every column pair equal a direct group-by of the rows restricted to groups above the minimum count |
| GroupByMeaning.StatsMeaning | jets/compute_pipes/clustering_association.go:62-73 | The statistics of a pair counted in the rows: observations are the rows with a text in a group above the minimum, groups and group sizes count the qualifying values, cells are the value pairs that occur, and the joint term sums f(number of rows) over the cells |
| GroupByMeaning.PoolStatsMeaning | jets/compute_pipes/clustering_pool_manager.go:327-344 | The same of the pooled statistics at the end of every run |
| GroupByMeaning.MarginalCountsRows | jets/compute_pipes/clustering_pool_manager.go:262-278 | A marginal counts the rows with each non-empty text |
| ClusteringPoolProofs.ReportedIsQualifying | jets/compute_pipes/clustering_pool_worker.go:61-80 | Once results are closed, a group was reported if and only if its non-empty observations exceed the minimum |
| ClusteringPoolProofs.MarginalsAreComplete | jets/compute_pipes/clustering_pool_manager.go:262-278 | The marginals are read after their last write: they are the histograms of all rows |
| ClusteringPoolProofs.NoDeadlock | jets/compute_pipes/clustering_pool_manager.go:247-344 | No run gets stuck before the scores, even with one-slot worker channels |
| ClusteringPoolTermination.StepLowersRank | jets/compute_pipes/clustering_pool_manager.go:247-344 | Every step of every role lowers a natural-number rank, new workers and their reports included |
| ClusteringPoolTermination.RunsAreBounded | jets/compute_pipes/clustering_pool_manager.go:247-344 | No run has more steps than the rank of the initial state |
| ClusteringPoolTermination.EveryRunEnds | jets/compute_pipes/clustering_pool_manager.go:247-344 | Every run can be carried on to one in which nothing more can happen |
| ClusteringPoolTermination.EndedRunScores | jets/compute_pipes/clustering_pool_manager.go:327-376 | When nothing more can happen, the scores have been read |
| Association.Bernoulli | jets/compute_pipes/clustering_association.go:288-296 | The probability of seeing a value in n draws is at most n times its share |
| Association.ExpectedDistinctBounds | jets/compute_pipes/clustering_association.go:282-297 | A sample of n draws shows between 1 and n distinct values on average |
| Association.ExpectedDistinctIsOne | jets/compute_pipes/clustering_association.go:282-297 | The expectation is 1 if and only if there is one draw or the column is constant |
| SampleAverage.ExpectedIsAverage | jets/compute_pipes/clustering_association.go:282-297 | The expectation is the average number of distinct values over all samples of n draws with replacement from the column |
| Association.ComputeExpectedDistinct | jets/compute_pipes/clustering_association.go:284-297 | The loop computes the expectation, zero for an empty population or sample |
| Association.CeilingBounds | jets/compute_pipes/clustering_association.go:330-339 | The independence ceiling lies between the number of groups and of observations, and equals the number of groups if and only if all groups have size 1 or column2 is constant |
| Association.ComputeCeiling | jets/compute_pipes/clustering_association.go:330-333 | Walking the size counts in any order sums the expectation over all groups |
| Association.NormalisedDependencyMeaning | jets/compute_pipes/clustering_association.go:326-348 | The score is in [0,1] and its upper clamp never changes it; it is 1 if and only if the guard passes and every group has one distinct value, 0 if and only if the guard fails or the cells reach the ceiling, and in between score times (ceiling - groups) is ceiling - cells |
| Association.ScoreIsLinear | jets/compute_pipes/clustering_association.go:340-347 | With the same groups, the score falls linearly with the number of cells |
| Association.ComputeNormalisedDependency | jets/compute_pipes/clustering_association.go:326-348 | The score as computed, guards and clamps included, is the specified one |
| Association.AssociationInRange | jets/compute_pipes/clustering_association.go:222-280 | For all statistics the information lies in [0, min(H1,H2)] after clamping and bias, and all three coefficients lie in [0,1] |
| InformationMeaning.EntropyIsShannon | jets/compute_pipes/clustering_association.go:85-100 | The entropy from the running sum is the Shannon entropy of the counts, wherever that is not negative |
| InformationMeaning.AssociationMeaning | jets/compute_pipes/clustering_association.go:222-280 | The information is H1 + H2 - H12 brought into its range less the bias, the bias is the degrees of freedom over twice the observations, and the coefficients are the information relative to H2, to H1 and to their mean |
| PairScore.PairStats | jets/compute_pipes/clustering_association.go:62-73 | The pooled statistics of a pair are consistent, with as many cells as groups if and only if column1 determines column2, and a size above 1 if and only if some group repeats |
| PairScore.MarginalIsValid | jets/compute_pipes/clustering_association.go:126-135 | For every walk of a histogram's map the counts are positive, at most the total, sum to it, and number the distinct values |
| PairScore.ScoreMeaning | jets/compute_pipes/clustering_association.go:299-348 | From the rows alone, for every walk of the marginal's map: the score is in [0,1]; it is 1 if and only if column1 determines column2 in every qualifying group, some group repeats and column2 is not constant; it is positive if and only if the pair is associated, and then score times (expected cells - groups) is expected cells - cells |
| PairScore.RunScoreMeaning | jets/compute_pipes/clustering_pool_manager.go:327-376 | The same of the pooled statistics and marginals at the end of every run, whatever the interleaving and the map order |
| GroupByMeaning.AssociatedMeaning | jets/compute_pipes/clustering_association.go:326-348 | A pair is associated if and only if a qualifying group has two rows, two rows have different texts in column2, and there are fewer cells than independence predicts |
| PairScore.CeilingOfWalk | jets/compute_pipes/clustering_association.go:330-333 | The ceiling does not depend on the order in which the marginal's map is walked |
| RowsToClusters.RelatedIffLinked | jets/compute_pipes/clustering_pool_manager.go:358-415 | For every run and every order: two columns are joined in the column graph if and only if, in one direction or the other, they are a column1 and a different column2, the pair is associated, and its rows are at least the configured number |
| RowsToClusters.ClusterIsLinkedByRows | jets/compute_pipes/clustering_pool_manager.go:358-415 | From the rows to the clusters: two columns of one cluster are joined by a chain of such pairs |
| ShardAllocator.ChunksTile | jets/compute_pipes/actions_shard_file_keys.go:347-377 | The un-shifted chunks of a split file tile it without gap or overlap and never overfill a shard |
| ShardAllocator.EveryByteOnce | jets/compute_pipes/actions_shard_file_keys.go:336-405 | In every run each byte of each file that is not skipped is in exactly one piece, and nothing else is |
| ShardAllocator.ShardIdsAreDense | jets/compute_pipes/actions_shard_file_keys.go:336-405 | Shard ids never decrease along the registry and use exactly 0..n-1 |
| ShardAllocator.LoadsAreBounded | jets/compute_pipes/actions_shard_file_keys.go:336-405 | With splitting on, no shard's un-shifted load exceeds max(maxShardSize, shardSize+1) |
| ShardAllocator.WasteIsBounded | jets/compute_pipes/actions_shard_file_keys.go:379-404 | (n-1) times shardSize is at most twice the assigned bytes |
| ShardAllocator.MergeOnlyIsOneShard | jets/compute_pipes/actions_shard_file_keys.go:106-167 | With the merge-only sizes the allocator returns at most one shard, so the error branch is dead |
| ShardAllocator.SplitFile | jets/compute_pipes/actions_shard_file_keys.go:347-377 | The loop writes one row per chunk, starts after the first moved back by the offset, one shard id each |
| ShardAllocator.AssignShardInfo | jets/compute_pipes/actions_shard_file_keys.go:336-405 | The rows and the shard count are those of the specified allocation for every listing |
| ShardPlacement.PlacementRule | jets/compute_pipes/actions_shard_file_keys.go:346-403 | In every run: an unsplit file joins the open shard if it fits under the maximum and otherwise opens a fresh one; a split file starts in the open shard whatever its load and fills it to one byte beyond the shard size; a shard is open if its last file was whole and its load does not exceed the shard size |
| ShardPlacement.SkippedMeaning | jets/compute_pipes/actions_shard_file_keys.go:343-345 | Skipped are the empty files and those whose key ends in the sentinel's name |
| ShardReader.LinesSplit | jets/compute_pipes/actions_read_fixedwidth_file.go:93-104 | A text cut after a newline reads as its two halves |
| LineMeaning.LinesMeaning | jets/compute_pipes/actions_read_fixedwidth_file.go:104-149 | The lines of a text cut after each newline, byte by byte: each line is its piece without the newline and without one carriage return before it |
| LineMeaning.JoinedIsText | jets/compute_pipes/actions_read_fixedwidth_file.go:104-149 | A text without carriage returns is its lines joined by newlines, and its final newline |
| ShardReader.LinesUpTo | jets/compute_pipes/actions_read_fixedwidth_file.go:110-149 | Dropping the last line of a byte range leaves exactly the lines before the one that holds the range's last byte |
| ShardReader.LastIndexByte | jets/compute_pipes/actions_load_files.go:133-140 | The last position of the byte, or -1 when it does not occur |
| ShardReader.ScanLines | jets/compute_pipes/actions_read_fixedwidth_file.go:110-272 | The look-ahead loop emits all lines, or all but the last when the last row is to be dropped |
| ShardReader.ReadFixedWidth | jets/compute_pipes/actions_read_fixedwidth_file.go:68-149 | Positioning and scanning give the specified lines or the specified error |
| ShardedRead.LaterShard | jets/compute_pipes/actions_read_fixedwidth_file.go:71-149 | A later shard resumes exactly at the start of the line crossing its un-shifted boundary and stops before the line holding its last byte; it fails exactly when that newline is outside the window |
| ShardedRead.LaterShards | jets/compute_pipes/actions_shard_file_keys.go:350-377 | The shards from a boundary on, laid end to end, read the lines from there to the last, once each and in order |
| ShardedRead.ShardedReadIsExact | jets/compute_pipes/actions_shard_file_keys.go:347-377 | For a sound split, the shards' lines laid end to end are the file's lines without the final one if all boundaries are visible, and otherwise some shard fails |
| ShardedRead.FinalLineIsLost | jets/compute_pipes/actions_read_fixedwidth_file.go:110-149 | No sound split ever reads a whole file: the final line is lost, or the read fails |
| ShardedRead.SoundSplitReadsAllButLast | jets/compute_pipes/actions_read_fixedwidth_file.go:71-149 | From every file whose lines are shorter than the offset, a sound split reads all lines but the final one, in order and once each |
| ShardedRead.FullShardReadsTwice | jets/compute_pipes/actions_s3_utils.go:373-377 | In a split begun in an exactly full shard, that shard alone hands out every line of every file, and the shards together never hand out the lines of a sound split |
| ShardedRead.SecondShardStartsOver | jets/compute_pipes/actions_read_fixedwidth_file.go:71-99 | For every file: a second start at byte 0 hands out the lines of the whole file again, its last one apart, if the later boundaries are visible; one before byte 0 fails, or does the same when the server ignores the invalid range; whenever the later shards succeed they repeat those lines |
| ShardedRead.UnsoundSplitFails | jets/compute_pipes/actions_shard_file_keys.go:350-377 | Every split that breaks the guard misreads the file of bare newlines |
| ShardedRead.SplitReadsAllButLastIff | jets/compute_pipes/actions_shard_file_keys.go:347-377 | A split reads all lines but the final one from every file of short lines if and only if one chunk holds the file or the offset stays inside the first chunk |
| ShardedRead.RunReadsSplitFile | jets/compute_pipes/actions_shard_file_keys.go:336-405 | In every allocator run the rows recorded for a split file read all lines but the final one, for every file of short lines, if and only if the guard holds at the fill reached there |
| ShardedRead.RunReadsWholeFile | jets/compute_pipes/actions_shard_file_keys.go:378-403 | In every run the one row of an unsplit file reads that file whole, its last line included |
| ShardedRead.FileRowsAreOfTheFile | jets/compute_pipes/actions_shard_file_keys.go:363-397 | The rows of a run for one file carry its key and size, and a skipped file has none |
| ShardedRead.GuardIsBrokenInARun | jets/compute_pipes/actions_shard_file_keys.go:347-403 | For every shard size there are listings after which a split begins with the guard broken, and the recorded rows then misread a file |
| ShardedRead.EveryFileIsMisread | jets/compute_pipes/actions_shard_file_keys.go:347-403 | After a file that fills the shard exactly, the rows recorded for the next split file misread every content of it |
| CopyPlan.RangesTile | jets/awsi/s3_copy_file.go:26-34 | For every object and part size the ranges tile the object and all but the last have the part size |
| CopyPlan.RangeCount | jets/awsi/s3_copy_file.go:297-323 | The number of ranges for a given quotient and remainder, including the case of one more |
| CopyPlan.PartCountIff | jets/awsi/s3_copy_file.go:261-323 | There are exactly size/chunk parts if and only if the remainder leaves room in the last part |
| CopyPlan.PartCountFails | jets/awsi/s3_copy_file.go:261-323 | For every chunk size, an object of chunk squared plus chunk less one bytes is not cut into size/chunk parts |
| CopyPlan.WholeUpToCutoff | jets/awsi/s3_copy_file.go:261-272 | An object is copied whole if and only if it has at most 100 MiB |
| CopyPlan.ExtentCount | jets/awsi/s3_copy_file.go:19-23 | Every object above 100 MiB and below 10,000 TiB is cut into as many parts as it holds chunks, of 100 MiB above 10 GiB and of 25 MiB below |
| CopyPlan.PartsBelowChunkSquared | jets/awsi/s3_copy_file.go:261-323 | Below chunk squared there are exactly size/chunk parts, each of at least chunk bytes, the last exceeding the others by less than the number of parts |
| CopyPlan.PlanAssembles | jets/awsi/s3_copy_file.go:247-326 | The parts in number order denote the concatenation of the source objects |
| CopyPlan.ProduceRanges | jets/awsi/s3_copy_file.go:296-323 | The loop sends the ranges of one object, numbered on from the counter |
| CopyPlan.ProduceParts | jets/awsi/s3_copy_file.go:247-326 | The producer sends the whole plan, numbered from 1 without gaps across objects |
| CopyProtocol.StepConserves | jets/awsi/s3_copy_file.go:192-244 | Each step leaves every sent part in exactly one place: queue, worker, result queue, collected or given up |
| CopyProtocol.RunInv | jets/awsi/s3_copy_file.go:175-379 | The protocol invariant holds in every state of every run |
| CopyProtocol.SortedIsPlan | jets/awsi/s3_copy_file.go:337-349 | Sorting the collected parts by number gives back the plan |
| CopyProtocol.SuccessMeansWholeCopy | jets/awsi/s3_copy_file.go:247-379 | If the copy returns success, the completed parts are 1..P once each in order, denote the concatenation of the sources, and no part had failed |
| CopyProtocol.CompletedIsPlanIff | jets/awsi/s3_copy_file.go:337-360 | What the collector completes the upload with is the whole plan if and only if no worker gave up; otherwise it has fewer parts |
| CopyProtocol.PartialCompletionHappens | jets/awsi/s3_copy_file.go:208-360 | For every plan there is a run that completes the upload with less than the plan |
| CopyProtocol.SuccessHappens | jets/awsi/s3_copy_file.go:192-379 | For every plan and every pool with a worker there is a run that succeeds with the whole plan |
| CopyProtocol.NothingSentAfterClose | jets/awsi/s3_copy_file.go:179-379 | In every run no task, result or error is sent on a channel that has been closed |
| CopyProtocol.GaveUpStays | jets/awsi/s3_copy_file.go:208-234 | A part given up stays given up for the rest of the run |
| CopyProtocol.AtMostFourRetries | jets/awsi/s3_copy_file.go:151-216 | In every run no part is retried more than four times |
| CopyProtocol.FourRetriesHappen | jets/awsi/s3_copy_file.go:151-216 | A part can be retried four times |
| CopyProtocol.FailureIsNeverSuccess | jets/awsi/s3_copy_file.go:179-234 | Once a part fails for good, no later state of any run is a success |
| CopyProtocol.NoDeadlock | jets/awsi/s3_copy_file.go:175-379 | While the caller waits, some step is possible |
| CopyTermination.StepLowersRank | jets/awsi/s3_copy_file.go:192-379 | Every step lowers a natural-number rank, retries included |
| CopyTermination.RunsAreBounded | jets/awsi/s3_copy_file.go:192-379 | No run has more steps than the rank of the initial state |
| CopyTermination.EveryRunEnds | jets/awsi/s3_copy_file.go:192-379 | Every run can be carried on to one in which nothing more can happen |
| CopyTermination.EndedRunReturns | jets/awsi/s3_copy_file.go:371-379 | When nothing more can happen the caller has returned, with success if and only if nothing interrupted the copy |
| StagePath.ChainInClosure | jets/compute_pipes/actions_start_common.go:1441-1470 | What ends a chain of read and write ids is in the backward closure |
| StagePath.ClosureIsReachability | jets/compute_pipes/actions_start_common.go:1441-1470 | The least backward-closed set is exactly what chains of step ids reach, on cyclic documents too |
| StagePath.ScanStep | jets/compute_pipes/actions_start_common.go:1449-1466 | A step is passed if and only if every stage channel writing the id carries both flags, and then it is known whether the step writes the id |
| StagePath.ScanSteps | jets/compute_pipes/actions_start_common.go:1448-1470 | All writers of the id carry both flags, and the ids added are exactly those that lead to it; or a real offender is named |
| StagePath.ValidateFrom | jets/compute_pipes/actions_start_common.go:1439-1472 | The worklist terminates on every document and accepts if and only if every stage channel writing an id of the closure carries both flags |
| StagePath.ValidateOriginalHeadersStagePath | jets/compute_pipes/actions_start_common.go:1433-1477 | Accepted if and only if the contract holds for every output channel that asks for it; a rejection names such a channel and a stage channel that leads to it and lacks a flag |
| StageDocument.StepChannelsMeaning | jets/compute_pipes/actions_start_common.go:1353-1377 | The channels of a step are those its transformations write: their own, the site's unless the operator is built in, and those of the jetrules, anonymize and clustering configurations |
| StageDocument.AllStepsMeaning | jets/compute_pipes/actions_start_common.go:1394-1404 | The steps are the runtime pipes if there are any, the reducing steps and the conditional ones |
| StageDocument.StageReadsMeaning | jets/compute_pipes/actions_start_common.go:1406-1416 | The ids read are the non-empty ones of the step's stage inputs |
| StageDocument.ContractMeaning | jets/compute_pipes/actions_start_common.go:1433-1477 | The closure of the validator is what paths in the document reach |
| StageDocument.VerdictMeaning | jets/compute_pipes/actions_start_common.go:1433-1477 | What the validator decides, said of the document: every stage channel on a path to the step carries both flags, for each output channel that asks for it |
| StageDocument.OffenderMeaning | jets/compute_pipes/actions_start_common.go:1451-1461 | The stage channel a rejection names lies at the end of such a path and lacks a flag |
| ColumnAggregates.JoinAssoc | jets/compute_pipes/column_evaluators_aggregate.go:172-225 | Sum, minimum and maximum on absent or 64-bit cells are associative, wrap-around included |
| ColumnAggregates.FoldFrom | jets/compute_pipes/column_evaluators_aggregate.go:228-263 | A numeric aggregate started from a cell is that cell joined with the aggregate started from nothing |
| AggregateMeaning.FoldMeaning | jets/compute_pipes/column_evaluators_aggregate.go:16-488 | What the aggregates of an integer column are: absent if no row is taken; otherwise the number of taken rows, the sum of their values, wrapped to 64 bits, or a value among them that is at most (at least) all of them |
| ColumnAggregates.DistinctFold | jets/compute_pipes/column_evaluators_aggregate.go:85-140 | distinct_count holds exactly the texts of the accepted rows and closes to their number |
| ColumnAggregates.DistinctIntegers | jets/compute_pipes/column_evaluators_aggregate.go:106-120 | On an integer column that number is the number of distinct integers, since no two share a text |
| AggregateMeaning.DistinctMeaning | jets/compute_pipes/column_evaluators_aggregate.go:85-140 | A distinct_count of an integer column closes to the number of distinct integers in the taken rows |
| MapReduce.GroupedIsGroupBy | jets/compute_pipes/column_evaluators_map_reduce.go:19-62 | There is one intermediate row per non-empty key, and each of its cells is the aggregate of that key's rows |
| MapReduce.MapDistinctCount | jets/compute_pipes/column_evaluators_map_reduce.go:64-73 | After the map is closed, a distinct_count cell is the size of its key's value set |
| MapReduce.SplitByKeys | jets/compute_pipes/column_evaluators_map_reduce.go:49-60 | Aggregating the rows of two disjoint key sets apart and joining equals aggregating them together |
| MapReduce.TwoLevelsAreOne | jets/compute_pipes/column_evaluators_map_reduce.go:64-96 | For every key order, count-then-sum, sum-then-sum, min-then-min and max-then-max equal the single-level aggregate over the rows with a non-empty key, from any initial output cell |
| AggregateMeaning.MapReduceMeaning | jets/compute_pipes/column_evaluators_map_reduce.go:19-96 | For every key order a map_reduce puts into an empty cell the count, sum, minimum or maximum of the taken rows among those with a non-empty key |
| AggregateMeaning.KeyMeaning | jets/compute_pipes/column_evaluators_map_reduce.go:23-47 | The key is the text of the cell, its number in decimal, or the alternate key where the cell is absent |
| MapReduce.OutputSucceeds | jets/compute_pipes/column_evaluators_map_reduce.go:64-96 | On integer columns no update or close fails, whatever the key order |
| MapReduce.UpdateAll | jets/compute_pipes/column_evaluators_map_reduce.go:55-60 | Running the evaluators in turn gives the specified row, or the error of the first that fails |
| MapReduce.MapReduceEval.Update | jets/compute_pipes/column_evaluators_map_reduce.go:19-62 | The intermediate values stay those of all rows seen; the call fails exactly when an evaluator does |
| MapReduce.MapReduceEval.Done | jets/compute_pipes/column_evaluators_map_reduce.go:64-96 | For every closing order and every reduce order the result is the specified output, errors included |
| UniqueSplit.SplitInverts | jets/cleansing_functions/cleansing_functions.go:545 | Gluing the pieces with the separator gives the text back, no piece holds the separator, and each cut is at its first occurrence |
| UniqueSplit.TaggedInjective | jets/cleansing_functions/cleansing_functions.go:565-570 | Two numbered pieces are equal only if both piece and number are |
| UniqueSplit.NumbersFromZero | jets/cleansing_functions/cleansing_functions.go:556-570 | A piece that occurs n times yields exactly the numbers 0 to n - 1 |
| AggregateMeaning.DigitsAreDecimal | jets/cleansing_functions/cleansing_functions.go:568 | The number is written in decimal without leading zeros |
| UniqueSplit.NumberedAreDistinct | jets/cleansing_functions/cleansing_functions.go:541-572 | The results are pairwise distinct for every input and map order |
| UniqueSplit.StrippedIsSplit | jets/cleansing_functions/cleansing_functions.go:541-572 | Stripping the last dash and number gives back the multiset of pieces |
| UniqueSplit.UniqueSplitOn | jets/cleansing_functions/cleansing_functions.go:541-572 | Nothing for an empty text or separator; otherwise distinct numbered pieces that strip back to the split |

## Left out

- AWS, S3, database and queue calls: they are steps that succeed or fail, or inputs of the model.
- Floating-point rounding: weights and scores are reals; no claim about bit-level results.
- The value of `ln`: it is a parameter, as is n ln n; AssociationInRange and HistIsGroupBy hold for every choice of it.
- Non-positive edges: LocalMoving skips them as the code does, but the theorems across aggregation require positive weights, which ColumnGraph.GraphIsValid establishes for the graph the operator builds.
- The correlation output and the status of the clusters: the reported columns, the emitted identifiers and the tags of a cluster's output are not modelled. The sorting of the accumulator keys is any order in RowsToClusters.
- The accumulator key: a pair of columns, since the source's text key is ambiguous for names that contain "__".
- Rows too short for a column: a missing cell reads as empty, in the marginals and the column1 value as in the source; a short row that reaches a worker makes the source panic, which is not modelled. A column listed twice on one side is excluded by DistinctColumns.
- The minimum count of a group: a natural number; negative settings are not modelled.
- The clustering pool's `workersResultCh` and interrupted runs: a finished worker is one step, and no run is cancelled.
- Aborting an upload: a worker asks for it before it reports its error and ignores the answer, so CopyProtocol lets the completion that follows succeed or fail.
- The error channel of a copy: it never fills in CopyProtocol; each worker sends at most one error and the collector one.
- The order of the copied objects: CopyPlan takes the objects already sorted by key. The size of the worker pool is a parameter, positive where success is concerned.
- The numeric width of part numbers and file sizes: unbounded in CopyPlan and ShardAllocator.
- The parquet allocator: it counts chunks instead of byte ranges and has no reader boundary to prove.
- Merge channels and the session id and channel position columns of the registry rows.
- The CSV reader: quoting and the csv package it relies on; only the fixed-width reader's lines are modelled.
- Encodings, the offset for big-endian text, the scanner's limit on line length, row sampling, bad-row handling, the time limit of a run and the splitting of a line into columns.
- A byte range with a negative start: refused or ignored, as a parameter of ShardReader.Download; other answers of a server are not modelled.
- Shard sizes given in megabytes or by tier: ShardAllocator takes the sizes in bytes, with the maximum at least the shard size as the caller enforces.
- A transformation's `where` expression and the alternate map key: total functions of the row; their evaluation errors are not modelled.
- Text, float and time operands of sum, min and max, and casts to an rdf type: the model reports an error for them where the source may parse or compare.
- Column positions outside the row: read as absent where the source would panic; the builders rule them out. Map and reduce columns with repeated names are excluded by DistinctOutputs.
- avrg: its sample counter is shared by all keys, so it is not a fold per key.
- The error message of the stage path validator: only the two channels it names.
