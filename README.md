# TreeCmp's integer core, modelled in Dafny

TreeCmp compares phylogenetic trees under many metrics. This project models
the metrics' integer engine and proves what each step computes. It also
covers the stand-alone C program `matching_dis.c`, which computes the matching
distance of two unrooted binary trees.

The modules follow the program's own files:

- **Trees** (`PalTree`). A pal tree is an arena. Leaves are numbered
  0 .. n−1 and carry names. Internal nodes have lists of children. A given
  post-order walk lists every node once. The leaf id group maps names to ids.
- **Common utilities** (`TreeCmpUtils`, `TreeCmpUtilsLca`, `TreeCmpUtilsTriplets`,
  `ClustIntersectInfo`, `SplitDist`, `ClusterDist`):
  - clade sizes;
  - the cluster-intersection table and its equal-cluster list;
  - the lca and nodal-distance matrices;
  - the resolved-triplet counts, including the memoised r1/gamma recursion;
  - splits and clusters as bit sets, with their distances.
- **Matching metrics** (`CostMatrix`, `FreeNodes`, `MatchingSplitO3`,
  `MatchingSplitFree`, `MatchingClusterFree`, `OptRF`, `MatchingSplitOptRF`,
  `MatchingClusterOptRF`, `MatchingMetric`):
  - each builds a square cost matrix, padding the shorter side;
  - it hands the matrix to an assignment solver (`LapSolver`);
  - the dispatchers pick a variant from two flags.
- **Robinson–Foulds** (`RFMetric`): (N1 + N2)/2 − common, over splits and over clusters.
- **Triplet metrics** (`TripletMetric`, `TripletMetric2`, `TripletMetricSimple`) and the
  pair-filter count `MCEdgeTest`.
- **matching_dis.c** (`MatchingDis`, `MatchingDisParse`):
  - the Newick reader that builds the `Ptree` record;
  - the parity bit vectors of the splits;
  - rfdistance;
  - the (n−3)×(n−3) cost matrix and its optimal matching.
- **Quartet subsystem**:
  - `QtLeaf`: leaf ordering and quoting;
  - `QtParser`: the simple Newick parser;
  - `QtEdge`: directed-edge subtree sizes and the memoised intersection recursion;
  - `QtTree`: tree initialisation, the four edge-direction quadrants and the degree caches;
  - `QtDistance`: leaf pruning and the quartet distance formula.
- **Statistics** (`StatData`): the holder of distributions keyed by leaf count.

Code that changes state is modelled imperatively, with each method proved
against a specification function:

- tables and matrices are arrays;
- objects whose fields change are classes;
- loops keep their invariants.

Pure code is modelled as functions. The lemmas connect the pieces, including:

- round trips;
- complement identities;
- self-distance zero;
- bounds;
- the order independence of the pattern-count map's pair sum and listed values.

## Model

| member | source | states |
|---|---|---|
| PalTree.ClusterChildrenDisjoint | Fig_S2/TreeCmp/src/treecmp/common/TreeCmpUtils.java:209-251 | under an id group naming every leaf once, the clusters of two different children of one node share no id, which is what lets the child sums add up |
| PalTree.InterSumIsIntersection | Fig_S2/TreeCmp/src/treecmp/common/TreeCmpUtils.java:209-251 | the sum of the children's intersections with a cluster equals the node's intersection with it: the child-sum recurrence of the intersection table is sound |
| PalTree.SizeSumIsSize | Fig_S2/TreeCmp/src/treecmp/common/TreeCmpUtils.java:328-339 | summing the children's leaf counts gives the node's leaf count |
| PalTree.ClusterSize | Fig_S2/TreeCmp/src/treecmp/common/TreeCmpUtils.java:168-185 | under a covering id group a cluster has exactly as many ids as the node has leaves |
| TreeCmpUtils.GetNodesInPostOrder | Fig_S2/TreeCmp/src/treecmp/common/TreeCmpUtils.java:258-278 | the array holds the tree's post-order walk, every node once, in order |
| TreeCmpUtils.AllNodesEach | Fig_S2/TreeCmp/src/treecmp/common/TreeCmpUtils.java:280-300 | every node of the tree is listed by getAllNodes exactly once, the root last |
| TreeCmpUtils.GetAllNodes | Fig_S2/TreeCmp/src/treecmp/common/TreeCmpUtils.java:280-300 | the external nodes in number order, then the internal ones |
| TreeCmpUtils.CalcCladeSizes | Fig_S2/TreeCmp/src/treecmp/common/TreeCmpUtils.java:310-341 | after the post-order pass every internal node's entry is the number of leaves below it |
| TreeCmpUtils.CladeSizeOf | Fig_S2/TreeCmp/src/treecmp/common/TreeCmpUtils.java:328-339 | one leaf per leaf child plus the stored sizes of the internal children is the node's leaf count, given the children were done first |
| TreeCmpUtils.RootCladeSize | Fig_S2/TreeCmp/src/treecmp/common/TreeCmpUtils.java:321-340 | the root's clade size is the number of leaves of the tree |
| TreeCmpUtils.SameCladeIsEqualCluster | Fig_S2/TreeCmp/src/treecmp/common/ClustIntersectInfoMatrix.java:174-182 | an intersection equal to both clade sizes holds exactly when the two clusters are equal |
| TreeCmpUtils.EqPairsMember | Fig_S2/TreeCmp/src/treecmp/common/TreeCmpUtils.java:193-253 | a pair is in the recorded equal-cluster list exactly when it names an internal node of each tree and their clusters are equal |
| TreeCmpUtils.TableComplete | Fig_S2/TreeCmp/src/treecmp/common/TreeCmpUtils.java:193-253 | once every row is visited, every node pair's entry is the size of the intersection of their clusters |
| TreeCmpUtils.SumLeafInt | Fig_S2/TreeCmp/src/treecmp/common/TreeCmpUtils.java:209-222 | for a T1 leaf and a T2 internal node the child sum is the size of the intersection of their clusters |
| TreeCmpUtils.SumIntLeaf | Fig_S2/TreeCmp/src/treecmp/common/TreeCmpUtils.java:225-248 | for a T1 internal node and a T2 leaf the child sum is the size of the intersection of their clusters |
| TreeCmpUtils.SumIntInt | Fig_S2/TreeCmp/src/treecmp/common/TreeCmpUtils.java:225-250 | for two internal nodes the child sum is the size of the intersection of their clusters |
| TreeCmpUtils.StoreIntInt | Fig_S2/TreeCmp/src/treecmp/common/ClustIntersectInfoMatrix.java:168-183 | storing an internal pair appends it to the equal-cluster list and raises both flags exactly when the value equals both clade sizes, and changes nothing else of those structures |
| TreeCmpUtils.CellIntInt | Fig_S2/TreeCmp/src/treecmp/common/TreeCmpUtils.java:247-250 | one internal pair keeps the table, the flags and the recorded list correct for every pair visited so far |
| TreeCmpUtils.VisitPair | Fig_S2/TreeCmp/src/treecmp/common/TreeCmpUtils.java:194-252 | one visit of the inner loop, in any of the four leaf/internal cases, extends the proved stage by one pair |
| TreeCmpUtils.FillRow | Fig_S2/TreeCmp/src/treecmp/common/TreeCmpUtils.java:194-252 | one T1 node against every T2 node in post order keeps every visited pair correct |
| TreeCmpUtils.FillRows | Fig_S2/TreeCmp/src/treecmp/common/TreeCmpUtils.java:193-253 | the double loop leaves every pair visited and correct |
| TreeCmpUtils.NewTable | Fig_S2/TreeCmp/src/treecmp/common/TreeCmpUtils.java:175-185 | a fresh table with the clade sizes of both trees, zero cells, no recorded pair and no raised flag |
| TreeCmpUtils.CalcClustIntersectMatrix | Fig_S2/TreeCmp/src/treecmp/common/TreeCmpUtils.java:168-256 | every node pair's entry is the size of the intersection of the two clusters, the clade sizes are the cluster sizes, the recorded list is exactly the pairs of equal clusters in visiting order, and the flags mark exactly the nodes in it |
| TreeCmpUtils.Choose2 | Fig_S2/TreeCmp/src/treecmp/common/TreeCmpUtils.java:633-641 | 0 below two and n(n-1)/2 otherwise, never negative |
| TreeCmpUtils.ShiftRight1 | Fig_S2/TreeCmp/src/treecmp/common/TreeCmpUtils.java:640 | `x >> 1` on a non-negative number is the r with 2r ≤ x ≤ 2r + 1, that is x halved and rounded down |
| TreeCmpUtils.Choose2CountsPairs | Fig_S2/TreeCmp/src/treecmp/common/TreeCmpUtils.java:633-641 | choose2(n) is the number of unordered pairs of n elements |
| TreeCmpUtils.Choose2Step | Fig_S2/TreeCmp/src/treecmp/common/TreeCmpUtils.java:633-641 | choose2(n) = choose2(n-1) + n - 1 |
| TreeCmpUtils.IsBinary | Fig_S2/TreeCmp/src/treecmp/common/TreeCmpUtils.java:643-664 | true exactly when every non-root internal node has two children and the root has two (rooted) or three (unrooted) |
| TreeCmpUtils.Depth | Fig_S2/TreeCmp/src/treecmp/common/TreeCmpUtils.java:666-678 | the number of parent steps to the root; zero exactly at the root |
| TreeCmpUtils.GetNodeDepth | Fig_S2/TreeCmp/src/treecmp/common/TreeCmpUtils.java:666-678 | the climbing loop returns the node's depth |
| TreeCmpUtils.NameSetAppend | Fig_S2/TreeCmp/src/treecmp/common/TreeCmpUtils.java:698-709 | adding a name to the list adds it to the name set |
| TreeCmpUtils.MergeIdGroups | Fig_S2/TreeCmp/src/treecmp/common/TreeCmpUtils.java:693-719 | the merged group holds exactly the union of the two groups' names, each once |
| TreeCmpUtils.ListNames | Fig_S2/TreeCmp/src/treecmp/common/TreeCmpUtils.java:711-717 | the identifier array lists every name of the set exactly once |
| TreeCmpUtilsLca.Add | Fig_S2/TreeCmp/src/treecmp/common/TreeCmpUtils.java:744-753 | add keeps the existing lists and appends one list holding exactly the ids of the child's lists |
| TreeCmpUtilsLca.AddLeaf | Fig_S2/TreeCmp/src/treecmp/common/TreeCmpUtils.java:755-760 | addLeaf keeps the existing lists and appends the one-element list of the leaf |
| TreeCmpUtilsLca.GroupMembers | Fig_S2/TreeCmp/src/treecmp/common/TreeCmpUtils.java:60-73 | the list built for a child holds exactly the ids of that child's cluster |
| TreeCmpUtilsLca.GroupsDisjoint | Fig_S2/TreeCmp/src/treecmp/common/TreeCmpUtils.java:60-73 | the lists of two children of one node share no id |
| TreeCmpUtilsLca.BuildNodeInfo | Fig_S2/TreeCmp/src/treecmp/common/TreeCmpUtils.java:50-76 | the first pass gives every internal node the lists of its children's clusters, in child order |
| TreeCmpUtilsLca.SeparatesMeaning | Fig_S2/TreeCmp/src/treecmp/common/TreeCmpUtils.java:83-94 | the pair loops of a node reach (x, y) exactly when x and y lie in two different child lists |
| TreeCmpUtilsLca.MarkNode | Fig_S2/TreeCmp/src/treecmp/common/TreeCmpUtils.java:81-94 | the pass over one node writes its number into exactly the cells of the pairs it separates, in both orders, and leaves the rest |
| TreeCmpUtilsLca.LcaSymmetric | Fig_S2/TreeCmp/src/treecmp/common/TreeCmpUtils.java:89-90 | the specified lca entry does not depend on the order of the pair |
| TreeCmpUtilsLca.LcaDiagonal | Fig_S2/TreeCmp/src/treecmp/common/TreeCmpUtils.java:48-49 | no node separates an id from itself, so the diagonal keeps -1 |
| TreeCmpUtilsLca.CalcLcaMatrix | Fig_S2/TreeCmp/src/treecmp/common/TreeCmpUtils.java:39-97 | each cell is the last internal node (by number) that separates the two ids, the diagonal is -1 and the matrix is symmetric |
| TreeCmpUtilsLca.LcaOfLeaves | Fig_S2/TreeCmp/src/treecmp/common/TreeCmpUtils.java:39-97 | for two different leaves the cell names an internal node that has them below two different children, that is, a common ancestor at which they part |
| TreeCmpUtilsLca.AddEx | Fig_S2/TreeCmp/src/treecmp/common/TreeCmpUtils.java:782-794 | the extended add appends the child's entries with the same ids, each one edge further away |
| TreeCmpUtilsLca.AddLeafEx | Fig_S2/TreeCmp/src/treecmp/common/TreeCmpUtils.java:796-805 | the extended addLeaf appends the leaf at distance 1 |
| TreeCmpUtilsLca.GroupIds | Fig_S2/TreeCmp/src/treecmp/common/TreeCmpUtils.java:782-805 | the extended lists carry exactly the ids of the plain lists |
| TreeCmpUtilsLca.BuildNodeInfoEx | Fig_S2/TreeCmp/src/treecmp/common/TreeCmpUtils.java:119-145 | the first pass of the nodal matrix gives every internal node its extended lists |
| TreeCmpUtilsLca.MarkNodeEx | Fig_S2/TreeCmp/src/treecmp/common/TreeCmpUtils.java:150-163 | for each pair the node separates, cell (x, y) gets x's distance below the node, and other cells are kept |
| TreeCmpUtilsLca.NodalDiagonal | Fig_S2/TreeCmp/src/treecmp/common/TreeCmpUtils.java:116-117 | the diagonal of the nodal matrix stays 0 |
| TreeCmpUtilsLca.CalcNodalSplittedMatrix | Fig_S2/TreeCmp/src/treecmp/common/TreeCmpUtils.java:106-166 | each cell (x, y) is x's distance below the last node that separates x and y, and the diagonal is 0 |
| TreeCmpUtilsLca.LiftLastDist | Fig_S2/TreeCmp/src/treecmp/common/TreeCmpUtils.java:782-794 | each level climbed adds one to a leaf's distance |
| TreeCmpUtilsLca.DistMeaning | Fig_S2/TreeCmp/src/treecmp/common/TreeCmpUtils.java:782-805 | the distance recorded for a leaf below a child is one plus the number of edges from the leaf up to that child |
| TreeCmpUtilsLca.NodalFollowsLca | Fig_S2/TreeCmp/src/treecmp/common/TreeCmpUtils.java:106-166 | the nodal entry is the distance below the node the lca matrix names for the same pair |
| TreeCmpUtilsLca.NodalOfLeaves | Fig_S2/TreeCmp/src/treecmp/common/TreeCmpUtils.java:106-166 | for two different leaves the nodal entry is the number of edges from the first up to the lca's child that holds it, plus one, so the edges up to the lca |
| TreeCmpUtilsTriplets.ResolvedSumSnoc | Fig_S2/TreeCmp/src/treecmp/common/TreeCmpUtils.java:364-390 | the running sum grows by one node term per visited node |
| TreeCmpUtilsTriplets.CalcResolvedTriplets | Fig_S2/TreeCmp/src/treecmp/common/TreeCmpUtils.java:351-393 | the result is the sum over the post-order walk of C(a_v,2)(n-a_v) minus the children's C(a_x,2)(n-a_v), leaves and root skipped |
| TreeCmpUtilsTriplets.ChildPairsOf | Fig_S2/TreeCmp/src/treecmp/common/TreeCmpUtils.java:376-387 | the inner loop sums choose2 of the internal children's sizes, leaf children skipped |
| TreeCmpUtilsTriplets.Choose2Double | Fig_S2/TreeCmp/src/treecmp/common/TreeCmpUtils.java:633-641 | twice choose2(n) is n(n-1) |
| TreeCmpUtilsTriplets.Choose2Superadditive | Fig_S2/TreeCmp/src/treecmp/common/TreeCmpUtils.java:633-641 | the pairs of a union of two disjoint groups are at least the pairs inside each |
| TreeCmpUtilsTriplets.ChildPairsBound | Fig_S2/TreeCmp/src/treecmp/common/TreeCmpUtils.java:378-387 | with the real clade sizes the pairs inside internal children are at most the pairs of their union |
| TreeCmpUtilsTriplets.ResolvedTermNonNegative | Fig_S2/TreeCmp/src/treecmp/common/TreeCmpUtils.java:372-389 | every node term is non-negative when the clade sizes are the real ones |
| TreeCmpUtilsTriplets.ResolvedSumNonNegative | Fig_S2/TreeCmp/src/treecmp/common/TreeCmpUtils.java:351-393 | the resolved-triplet count is never negative |
| TreeCmpUtilsTriplets.CalcResolvedAndEqualTriplets | Fig_S2/TreeCmp/src/treecmp/common/TreeCmpUtils.java:395-498 | the result is the sum, over pairs of non-root internal nodes, of n1 - n2 - n3 + n4 as the source defines them |
| TreeCmpUtilsTriplets.EqualRowZero | Fig_S2/TreeCmp/src/treecmp/common/TreeCmpUtils.java:417-423 | a leaf or the root of T1 contributes nothing |
| TreeCmpUtilsTriplets.EqualTermOf | Fig_S2/TreeCmp/src/treecmp/common/TreeCmpUtils.java:425-494 | one pair contributes n1 - n2 - n3 + n4, zero when v is a leaf or the root |
| TreeCmpUtilsTriplets.SumWithChildren | Fig_S2/TreeCmp/src/treecmp/common/TreeCmpUtils.java:470-489 | the n4 double loop sums choose2 over every internal child pair |
| TreeCmpUtilsTriplets.OutsideCounts | Fig_S2/TreeCmp/src/treecmp/common/TreeCmpUtils.java:433-434 | the common factor n - (c1 + c2 - c12) counts the ids outside both clusters, so it is never negative |
| TreeCmpUtilsTriplets.U2IsU | Fig_S2/TreeCmp/src/treecmp/common/TreeCmpUtils.java:541-592 | every gamma call r1 makes picks u itself as u2 |
| TreeCmpUtilsTriplets.GammaOf | Fig_S2/TreeCmp/src/treecmp/common/TreeCmpUtils.java:585-630 | gamma's three loops over v's children give n1 - n2 - n3 - n4 |
| TreeCmpUtilsTriplets.MemoGamma | Fig_S2/TreeCmp/src/treecmp/common/TreeCmpUtils.java:557-578 | a lookup returns gamma of the key whether it hits or fills the memo, and the memo only ever holds true values |
| TreeCmpUtilsTriplets.R1Of | Fig_S2/TreeCmp/src/treecmp/common/TreeCmpUtils.java:541-582 | r1 is gamma of u minus the sum of gamma of its internal children, with the memo kept sound |
| TreeCmpUtilsTriplets.CalcResolvedOnlyInT1 | Fig_S2/TreeCmp/src/treecmp/common/TreeCmpUtils.java:501-539 | the result is the sum of r1 over non-root internal u of T1 and v of T2 with more than two children, whatever the memo held |
| TreeCmpUtilsTriplets.OnlyRowZero | Fig_S2/TreeCmp/src/treecmp/common/TreeCmpUtils.java:521-526 | a leaf or the root of T1 contributes nothing |
| ClustIntersectInfo.ClustIntersectInfoMatrix.constructor | Fig_S2/TreeCmp/src/treecmp/common/ClustIntersectInfoMatrix.java:52-86 | construction followed by init: the trees and id group are kept, the tables have the internal-node dimensions, every cell and size is 0, every bit set empty, every flag false and the equal-cluster list empty |
| ClustIntersectInfo.ClustIntersectInfoMatrix.GetT1ExtT2Ext | Fig_S2/TreeCmp/src/treecmp/common/ClustIntersectInfoMatrix.java:124-130 | 1 exactly when the two leaves have the same alias, else 0 |
| ClustIntersectInfo.ClustIntersectInfoMatrix.GetT1IntT2Ext | Fig_S2/TreeCmp/src/treecmp/common/ClustIntersectInfoMatrix.java:132-138 | 1 exactly when the leaf's bit is set for the internal node, else 0 |
| ClustIntersectInfo.ClustIntersectInfoMatrix.GetT1ExtT2Int | Fig_S2/TreeCmp/src/treecmp/common/ClustIntersectInfoMatrix.java:140-146 | 1 exactly when the leaf's bit is set for the internal node, else 0 |
| ClustIntersectInfo.ClustIntersectInfoMatrix.GetT1IntT2Int | Fig_S2/TreeCmp/src/treecmp/common/ClustIntersectInfoMatrix.java:148-151 | the stored internal × internal cell; `SetT1IntT2Int` ensures the value it stores reads back through it, and `CalcClustIntersectMatrix` ensures (through `GetInterSize`) that the cell is the size of the two clusters' intersection |
| ClustIntersectInfo.ClustIntersectInfoMatrix.SetT1IntT2Ext | Fig_S2/TreeCmp/src/treecmp/common/ClustIntersectInfoMatrix.java:154-159 | the leaf's bit is added for the node exactly when the value is 1; every other node's bits are kept |
| ClustIntersectInfo.ClustIntersectInfoMatrix.SetT1ExtT2Int | Fig_S2/TreeCmp/src/treecmp/common/ClustIntersectInfoMatrix.java:161-166 | the leaf's bit is added for the node exactly when the value is 1; every other node's bits are kept |
| ClustIntersectInfo.ClustIntersectInfoMatrix.SetT1IntT2Int | Fig_S2/TreeCmp/src/treecmp/common/ClustIntersectInfoMatrix.java:168-183 | the value is always stored in its cell and no other cell changes; the pair is appended and both flags raised exactly when the value equals both clade sizes, otherwise the equal-cluster structures are unchanged |
| ClustIntersectInfo.ClustIntersectInfoMatrix.GetInterSize | Fig_S2/TreeCmp/src/treecmp/common/ClustIntersectInfoMatrix.java:186-203 | dispatches on the leaf/internal status of both nodes to the matching accessor |
| ClustIntersectInfo.ClustIntersectInfoMatrix.GetSizeT1 | Fig_S2/TreeCmp/src/treecmp/common/ClustIntersectInfoMatrix.java:205-211 | 1 for a leaf, the stored clade size otherwise |
| ClustIntersectInfo.ClustIntersectInfoMatrix.GetSizeT2 | Fig_S2/TreeCmp/src/treecmp/common/ClustIntersectInfoMatrix.java:213-218 | 1 for a leaf, the stored clade size otherwise |
| ClusterDist.ClusterXor | Fig_S2/TreeCmp/src/treecmp/common/ClusterDist.java:30-40 | the loop counts the positions where the two clades differ |
| ClusterDist.MismatchesSymmetric | Fig_S2/TreeCmp/src/treecmp/common/ClusterDist.java:30-40 | clusterXor is symmetric |
| ClusterDist.MismatchesSelf | Fig_S2/TreeCmp/src/treecmp/common/ClusterDist.java:30-40 | clusterXor is 0 on equal clades |
| ClusterDist.MarkNode | Fig_S2/TreeCmp/src/treecmp/common/ClusterDist.java:62-77 | succeeds exactly when every leaf below the node is named in the id group, and then adds exactly the ids of those leaves |
| ClusterDist.RootedTree2BitSetArray | Fig_S2/TreeCmp/src/treecmp/common/ClusterDist.java:42-60 | fails exactly when a leaf name is missing from the id group; otherwise one cluster per non-root internal node, N-1 in all, each the ids below that node |
| ClusterDist.GetDistXorBit | Fig_S2/TreeCmp/src/treecmp/common/ClusterDist.java:79-85 | the size of the symmetric difference of the two clusters, the arguments unchanged |
| ClusterDist.GetAndBit | Fig_S2/TreeCmp/src/treecmp/common/ClusterDist.java:86-92 | the size of the intersection, at most either size |
| ClusterDist.GetDistToOAsMinBit | Fig_S2/TreeCmp/src/treecmp/common/ClusterDist.java:94-99 | the xor distance of the cluster to the empty cluster, with no complement fold, so never negative |
| ClusterDist.XorByAnd | Fig_S2/TreeCmp/src/treecmp/common/ClusterDist.java:79-92 | the xor distance is the two cardinalities minus twice the intersection |
| ClusterDist.XorZero | Fig_S2/TreeCmp/src/treecmp/common/ClusterDist.java:79-85 | the xor distance is 0 exactly when the clusters are equal |
| SplitDist.GetDist1Int | scripts/Topological_Congruence/TreeCmp/src/treecmp/common/SplitDist.java:56-75 | n - max(eq, neq), that is the smaller of the mismatch count and its complement |
| SplitDist.MinFoldBounds | scripts/Topological_Congruence/TreeCmp/src/treecmp/common/SplitDist.java:56-75 | the folded distance is between 0 and n/2 |
| SplitDist.MismatchesComplement | scripts/Topological_Congruence/TreeCmp/src/treecmp/common/SplitDist.java:60-74 | complementing one split turns the mismatch count into n minus it |
| SplitDist.Dist1Complement | scripts/Topological_Congruence/TreeCmp/src/treecmp/common/SplitDist.java:56-75 | getDist1Int does not change when one split is complemented, and is at most n/2 |
| SplitDist.GetMinSize | scripts/Topological_Congruence/TreeCmp/src/treecmp/common/SplitDist.java:99-110 | the smaller of the number of set entries and the number of unset ones |
| SplitDist.GetMaxSize | scripts/Topological_Congruence/TreeCmp/src/treecmp/common/SplitDist.java:112-117 | getMinSize plus getMaxSize is n, and the maximum is at least half |
| SplitDist.GetDist1Bit | scripts/Topological_Congruence/TreeCmp/src/treecmp/common/SplitDist.java:119-134 | the smaller of the xor size and n minus it; split1 is not modified |
| SplitDist.GetDistToOAsMinBit | scripts/Topological_Congruence/TreeCmp/src/treecmp/common/SplitDist.java:136-149 | the smaller of the split size and n minus it |
| SplitDist.BitDistancesAgree | scripts/Topological_Congruence/TreeCmp/src/treecmp/common/SplitDist.java:56-149 | the bit-set distances agree with the boolean-array ones on the same split |
| SplitDist.StandardHasZero | scripts/Topological_Congruence/TreeCmp/src/treecmp/common/SplitDist.java:211-214 | a standardised split always holds bit 0 |
| SplitDist.StandardOfFlip | scripts/Topological_Congruence/TreeCmp/src/treecmp/common/SplitDist.java:211-214 | a split and its complement standardise to the same set |
| SplitDist.Dist1BitFlip | scripts/Topological_Congruence/TreeCmp/src/treecmp/common/SplitDist.java:119-134 | getDist1Bit does not change when one side is complemented, so standardisation does not change distances |
| SplitDist.ChildBits | scripts/Topological_Congruence/TreeCmp/src/treecmp/common/SplitDist.java:188-205 | the union over the node's children of their bits (leaf ids or stored splits) is the node's cluster, failing exactly on an unnamed leaf |
| SplitDist.WalkSplits | scripts/Topological_Congruence/TreeCmp/src/treecmp/common/SplitDist.java:182-208 | the post-order walk fills each internal node's entry with its cluster, failing exactly when some leaf name is missing |
| SplitDist.StandardizeSplits | scripts/Topological_Congruence/TreeCmp/src/treecmp/common/SplitDist.java:211-214 | each split is replaced by its standard form |
| SplitDist.GetSplits | scripts/Topological_Congruence/TreeCmp/src/treecmp/common/SplitDist.java:174-217 | fails exactly on an unnamed leaf; otherwise internalCount - 1 splits, each the standardised cluster of a non-root internal node, each holding bit 0 |
| LapSolver.Optimum | scripts/Topological_Congruence/TreeCmp/src/treecmp/metric/MatchingSplitMetricO3.java:160 | the reference optimum of a square matrix: a permutation whose total is no larger than that of any other permutation |
| LapSolver.BestOptimal | scripts/Topological_Congruence/TreeCmp/src/treecmp/metric/MatchingSplitMetricO3.java:160 | the exhaustive search over the remaining columns is no worse than any injective choice of them |
| LapSolver.OptimalIsOptimum | scripts/Topological_Congruence/TreeCmp/src/treecmp/metric/MatchingSplitMetricO3.java:160 | any permutation total that is no larger than every other one is the optimum value, so every solver meeting the contract returns the same distance |
| LapSolver.OptimumWithin | scripts/Topological_Congruence/TreeCmp/src/treecmp/metric/MatchingSplitMetricO3.java:160 | with every cell between lo and hi the optimum is between n·lo and n·hi |
| LapSolver.OptimumZero | scripts/Topological_Congruence/TreeCmp/src/treecmp/metric/MatchingSplitMetricO3.java:160 | a non-negative matrix with a zero diagonal has optimum 0 |
| LapSolver.AlongIsTotal | scripts/Topological_Congruence/TreeCmp/src/treecmp/metric/MatchingSplitMetricO3.java:192-196 | the row-by-row sum of the chosen cells is the permutation's total |
| LapSolver.LapShort | scripts/Topological_Congruence/TreeCmp/src/treecmp/metric/MatchingSplitMetricO3.java:160 | the assignment solver: rowsol is a permutation, colsol its inverse, and the cost is the optimum over the matrix |
| CostMatrix.Kept | scripts/Topological_Congruence/TreeCmp/src/treecmp/metric/MatchingSplitMetricO3.java:116-144 | the slots a skipping loop keeps, in order, never more than it visits |
| CostMatrix.FillSkipping | scripts/Topological_Congruence/TreeCmp/src/treecmp/metric/MatchingSplitMetricO3.java:116-158 | the double loop with skipped rows and columns fails exactly when more slots are kept than the matrix has room for; otherwise every cell of the size×size matrix is the cost of the kept row and column slots, the row counter and column counter staying within size |
| CostMatrix.FillRow | scripts/Topological_Congruence/TreeCmp/src/treecmp/metric/MatchingSplitMetricO3.java:131-157 | one kept row slot writes exactly the cells of its row |
| FreeNodes.FreeSlots | scripts/Topological_Congruence/TreeCmp/src/treecmp/metric/MatchingSpliMetricFree.java:94-127 | the slots of a free-leaf-set matrix: every node in getAllNodes order, the root skipped when asked, then padding up to the iteration bound |
| FreeNodes.KeptFree | scripts/Topological_Congruence/TreeCmp/src/treecmp/metric/MatchingSpliMetricFree.java:94-127 | the skipping loop over getAllNodes keeps exactly those slots |
| FreeNodes.FreeSlotHas | scripts/Topological_Congruence/TreeCmp/src/treecmp/metric/MatchingSpliMetricFree.java:97-100 | every node except, when asked, the root gets a slot |
| FreeNodes.NoPadPair | scripts/Topological_Congruence/TreeCmp/src/treecmp/metric/MatchingSpliMetricFree.java:142-146 | no cell pairs two padding slots |
| FreeNodes.MergedCovers | scripts/Topological_Congruence/TreeCmp/src/treecmp/metric/MatchingSpliMetricFree.java:42-45 | the merged id group names every leaf of either tree |
| FreeNodes.RootClusterSize | scripts/Topological_Congruence/TreeCmp/src/treecmp/metric/MatchingSpliMetricFree.java:76 | the root's cluster has one id per leaf of its tree |
| MatchingSplitO3.O3Matrix | scripts/Topological_Congruence/TreeCmp/src/treecmp/metric/MatchingSplitMetricO3.java:116-158 | the size×size cost matrix over the kept (non-root, non-equal) internal nodes, padded |
| MatchingSplitO3.O3Fits | scripts/Topological_Congruence/TreeCmp/src/treecmp/metric/MatchingSplitMetricO3.java:50-55 | with the root and the equal clusters skipped, each side keeps exactly max(size1 - eq, size2 - eq) slots, so the counters never leave the matrix |
| MatchingSplitO3.O3CostIsSplitCost | scripts/Topological_Congruence/TreeCmp/src/treecmp/metric/MatchingSplitMetricO3.java:145-154 | a real pair costs min(x1, n - x1) with x1 = \|u\| + \|v\| - 2\|u∩v\|, which is the split distance of the two clusters; a padding cell costs min(n - \|c\|, \|c\|) |
| MatchingSplitO3.SplitCostBound | scripts/Topological_Congruence/TreeCmp/src/treecmp/metric/MatchingSplitMetricO3.java:145-148 | every real cell is between 0 and n/2 |
| MatchingSplitO3.O3DistanceBounds | scripts/Topological_Congruence/TreeCmp/src/treecmp/metric/MatchingSplitMetricO3.java:42-162 | the matching split distance is between 0 and size·(n/2) |
| MatchingSplitO3.IdMap | scripts/Topological_Congruence/TreeCmp/src/treecmp/metric/MatchingSplitMetricO3.java:73-112 | the alignment id map holds the kept node numbers in order, then -1 for the unpaired slots |
| MatchingSplitO3.BuildO3 | scripts/Topological_Congruence/TreeCmp/src/treecmp/metric/MatchingSplitMetricO3.java:116-158 | the filled matrix is the reference O3 matrix, failing exactly when the kept slots overflow it |
| MatchingSplitO3.FlagsAre | scripts/Topological_Congruence/TreeCmp/src/treecmp/metric/MatchingSplitMetricO3.java:127-141 | the equal-cluster flags the loop consults mark exactly the nodes whose cluster reappears in the other tree |
| MatchingSplitO3.MatchingSplitMetricO3.GetDistance | scripts/Topological_Congruence/TreeCmp/src/treecmp/metric/MatchingSplitMetricO3.java:42-162 | builds the intersection table with T1's leaf id group; a negative size fails; size 0 gives 0; otherwise the matrix is the O3 matrix, rowsol a permutation and the result the solver's optimum over it; with alignments on, the id maps are stored |
| MatchingSplitO3.MatchingSplitMetricO3.Assign | scripts/Topological_Congruence/TreeCmp/src/treecmp/metric/MatchingSplitMetricO3.java:57-61 | the solver's arrays are fresh, rowsol is a permutation and the result is the optimum over the matrix |
| MatchingSplitO3.ListEqPairs | scripts/Topological_Congruence/TreeCmp/src/treecmp/metric/MatchingSplitMetricO3.java:181-190 | the equal pairs whose cluster is not the whole leaf set, in list order, at cost 0; fails exactly when they do not fit the alignment array |
| MatchingSplitO3.MatchingSplitMetricO3.GetAlignment | scripts/Topological_Congruence/TreeCmp/src/treecmp/metric/MatchingSplitMetricO3.java:164-211 | the non-root equal pairs at cost 0, then one pair per solver row naming the id-mapped nodes; the total is the sum of the chosen cells, which is the permutation's total; fails exactly when the pairs overflow the size - 1 array |
| MatchingSplitFree.Quadrants | scripts/Topological_Congruence/TreeCmp/src/treecmp/metric/MatchingSpliMetricFree.java:131-137 | bc, ad and bd obtained by subtraction from the root intersections are the sizes of the other three quadrants |
| MatchingSplitFree.PairArithIsCost | scripts/Topological_Congruence/TreeCmp/src/treecmp/metric/MatchingSpliMetricFree.java:128-140 | the pair cost extSum - 2·max(ac + bd, ad + bc) is the reference split cost of the two side pairs |
| MatchingSplitFree.PadArithIsCost | scripts/Topological_Congruence/TreeCmp/src/treecmp/metric/MatchingSpliMetricFree.java:142-145 | the padding cost min(extSum + a - b, extSum + b - a) is the reference cost of an unmatched split |
| MatchingSplitFree.SplitCostsSameLeaves | scripts/Topological_Congruence/TreeCmp/src/treecmp/metric/MatchingSpliMetricFree.java:128-145 | on one common leaf set the pair cost is twice getDist1Bit and the padding cost is n plus twice getDistToOAsMinBit |
| MatchingSplitFree.SplitPairCostSelf | scripts/Topological_Congruence/TreeCmp/src/treecmp/metric/MatchingSpliMetricFree.java:128-140 | a split paired with itself costs 0 |
| MatchingSplitFree.SplitCostBounds | scripts/Topological_Congruence/TreeCmp/src/treecmp/metric/MatchingSpliMetricFree.java:128-145 | every cell is between 0 and extSum |
| MatchingSplitFree.FreeSplitDistanceBounds | scripts/Topological_Congruence/TreeCmp/src/treecmp/metric/MatchingSpliMetricFree.java:38-158 | the optimum is between 0 and size·extSum |
| MatchingSplitFree.FreeSplitSelfZero | scripts/Topological_Congruence/TreeCmp/src/treecmp/metric/MatchingSpliMetricFree.java:38-158 | a tree compared with itself has distance 0 |
| MatchingSplitFree.FillFreeSplit | scripts/Topological_Congruence/TreeCmp/src/treecmp/metric/MatchingSpliMetricFree.java:93-152 | the filled matrix is the reference free split matrix |
| MatchingSplitFree.MatchingSpliMetricFree.GetDistance | scripts/Topological_Congruence/TreeCmp/src/treecmp/metric/MatchingSpliMetricFree.java:38-158 | leaf ids come from the merged id groups; size 0 gives 0; otherwise the matrix over all non-root nodes is the reference one, rowsol a permutation and the result half the solver's optimum |
| MatchingClusterFree.ClusterFreeMatrix | Fig_4/TreeCmp/src/treecmp/metric/MatchingClusterMetricFree.java:73-108 | the cost matrix over every node of both trees in getAllNodes order, padded to max(tot1, tot2) |
| MatchingClusterFree.ClusterFreeCellIsCost | Fig_4/TreeCmp/src/treecmp/metric/MatchingClusterMetricFree.java:78-104 | a real pair costs \|n1\| + \|n2\| - 2\|n1∩n2\|, the xor size of the clusters, with a leaf counted as size 1; a padding cell costs the real node's cluster size |
| MatchingClusterFree.ClusterFreeEntryZero | Fig_4/TreeCmp/src/treecmp/metric/MatchingClusterMetricFree.java:95-98 | a cell is 0 exactly when the two clusters are equal |
| MatchingClusterFree.ClusterFreeDistanceBounds | Fig_4/TreeCmp/src/treecmp/metric/MatchingClusterMetricFree.java:38-154 | the optimum is between 0 and size·(ext1 + ext2) |
| MatchingClusterFree.ClusterFreeSelfZero | Fig_4/TreeCmp/src/treecmp/metric/MatchingClusterMetricFree.java:38-154 | a tree compared with itself has distance 0 |
| MatchingClusterFree.FillClusterFree | Fig_4/TreeCmp/src/treecmp/metric/MatchingClusterMetricFree.java:73-108 | the filled matrix is the reference free cluster matrix |
| MatchingClusterFree.MatchingClusterMetricFree.GetDistance | Fig_4/TreeCmp/src/treecmp/metric/MatchingClusterMetricFree.java:38-154 | leaf ids come from the merged id groups; no node is skipped; the matrix is the reference one, rowsol a permutation and the result the solver's optimum, not halved |
| OptRF.Dedup | scripts/Topological_Congruence/TreeCmp/src/treecmp/metric/MatchingSplitMetricOptRF.java:63-67 | the LinkedHashSet of the larger side: the same elements, each once |
| OptRF.Remove | scripts/Topological_Congruence/TreeCmp/src/treecmp/metric/MatchingSplitMetricOptRF.java:72 | removing an element takes exactly it out of a duplicate-free list and shortens the list by one exactly when it was there |
| OptRF.ToLinkedHashSet | scripts/Topological_Congruence/TreeCmp/src/treecmp/metric/MatchingSplitMetricOptRF.java:63-67 | the loop of adds builds the duplicate-free list of the array, first occurrences kept in order |
| OptRF.RemoveCommon | scripts/Topological_Congruence/TreeCmp/src/treecmp/metric/MatchingSplitMetricOptRF.java:68-75 | the removal loop gives the two residuals of the reference removal |
| OptRF.StripMeaning | scripts/Topological_Congruence/TreeCmp/src/treecmp/metric/MatchingSplitMetricOptRF.java:68-75 | after the removal no element left in the list is in the set; the set lost exactly the list's elements; both sides lost the same number, one for one |
| OptRF.CommonCount | scripts/Topological_Congruence/TreeCmp/src/treecmp/metric/MatchingSplitMetricOptRF.java:68-75 | the set loses exactly as many elements as the two sides have in common |
| OptRF.StripSelf | scripts/Topological_Congruence/TreeCmp/src/treecmp/metric/MatchingSplitMetricOptRF.java:68-75 | a duplicate-free array stripped against itself leaves nothing on either side |
| OptRF.Sides | scripts/Topological_Congruence/TreeCmp/src/treecmp/metric/MatchingSplitMetricOptRF.java:49-56 | the smaller array is always the list side |
| OptRF.Residuals | scripts/Topological_Congruence/TreeCmp/src/treecmp/metric/MatchingSplitMetricOptRF.java:77-94 | rows iterate over the larger residual |
| OptRF.ResidualsMeaning | scripts/Topological_Congruence/TreeCmp/src/treecmp/metric/MatchingSplitMetricOptRF.java:49-83 | the residuals are what is left after the common elements are taken from both sides; the matrix side is the larger residual count |
| OptRF.ResidualMatrix | scripts/Topological_Congruence/TreeCmp/src/treecmp/metric/MatchingSplitMetricOptRF.java:94-129 | a cell pairs a row residual with a column residual at their distance; columns past the smaller residual cost the row element's padding |
| OptRF.FillResidual | scripts/Topological_Congruence/TreeCmp/src/treecmp/metric/MatchingSplitMetricOptRF.java:94-129 | the two iterator loops fill exactly the residual matrix |
| OptRF.SolveResidual | scripts/Topological_Congruence/TreeCmp/src/treecmp/metric/MatchingSplitMetricOptRF.java:49-133 | the result is the solver's optimum over the residual matrix, 0 when both residuals are empty |
| OptRF.OptRFSelf | scripts/Topological_Congruence/TreeCmp/src/treecmp/metric/MatchingSplitMetricOptRF.java:77-83 | comparing a duplicate-free array with itself leaves an empty matrix |
| MatchingSplitOptRF.GetDistance | scripts/Topological_Congruence/TreeCmp/src/treecmp/metric/MatchingSplitMetricOptRF.java:36-134 | fails exactly when a leaf of t2 is not named by t1's id group; otherwise the optimum over the residual matrix with getDist1Bit for real cells and getDistToOAsMinBit for padding, 0 when nothing is left |
| MatchingSplitOptRF.SplitOptRFSelf | scripts/Topological_Congruence/TreeCmp/src/treecmp/metric/MatchingSplitMetricOptRF.java:68-83 | a tree whose splits are all different is at distance 0 from itself |
| MatchingClusterOptRF.GetDistance | scripts/Topological_Congruence/TreeCmp/src/treecmp/metric/MatchingClusterMetricOptRF.java:36-134 | fails exactly when a leaf of t2 is not named; otherwise the optimum over the cluster residual matrix with the xor size for real cells and the cardinality for padding, 0 when nothing is left |
| MatchingClusterOptRF.ClusterOptRFSelf | scripts/Topological_Congruence/TreeCmp/src/treecmp/metric/MatchingClusterMetricOptRF.java:68-83 | a tree whose clusters are all different is at distance 0 from itself |
| MatchingMetric.Choose | scripts/Topological_Congruence/TreeCmp/src/treecmp/metric/MatchingSplitMetric.java:37-47 | the RF-pruned variant exactly when its flag is set, whatever the other; otherwise the free variant exactly when the free-leaf-set flag is set; otherwise O3 |
| MatchingMetric.NoAlignmentUnderFlags | scripts/Topological_Congruence/TreeCmp/src/treecmp/metric/MatchingSplitMetric.java:50-58 | an alignment is given exactly when neither flag is set |
| MatchingMetric.MatchingSplitMetric.GetDistance | scripts/Topological_Congruence/TreeCmp/src/treecmp/metric/MatchingSplitMetric.java:37-47 | the distance is the chosen variant's, with that variant's success condition |
| MatchingMetric.MatchingSplitMetric.GetAlignment | scripts/Topological_Congruence/TreeCmp/src/treecmp/metric/MatchingSplitMetric.java:50-58 | null under either flag, and the O3 alignment otherwise |
| MatchingMetric.MatchingClusterMetric.GetDistance | scripts/Topological_Congruence/TreeCmp/src/treecmp/metric/MatchingClusterMetric.java:38-48 | the RF-pruned cluster distance under its flag, then the free cluster distance, otherwise the O3 cluster distance |
| MatchingMetric.MatchingClusterMetric.GetAlignment | scripts/Topological_Congruence/TreeCmp/src/treecmp/metric/MatchingClusterMetric.java:50-60 | null under either flag, and the O3 cluster alignment otherwise |
| RFMetric.CountCommon | Fig_4/TreeCmp/src/treecmp/metric/RFMetric.java:42-56 | the count of entries of the second array present in the first array's set |
| RFMetric.CommonIsIntersection | Fig_4/TreeCmp/src/treecmp/metric/RFMetric.java:51-56 | for a duplicate-free second array that count is the size of the intersection of the two sets |
| RFMetric.RFIsHalfSymmetricDifference | Fig_4/TreeCmp/src/treecmp/metric/RFMetric.java:58 | for duplicate-free arrays (N1 + N2)/2 - common is half the symmetric difference, never negative, and 0 exactly when the two sets are equal |
| RFMetric.GetRFDistance | Fig_4/TreeCmp/src/treecmp/metric/RFMetric.java:31-61 | 0 for at most three leaves; otherwise fails exactly when a leaf of t2 is not named, and is (N1 + N2)/2 - common over the splits |
| RFMetric.GetRFClusterMetric | Fig_4/TreeCmp/src/treecmp/metric/RFClusterMetric.java:27-53 | no small-tree shortcut; fails exactly when a leaf of t2 is not named, and is (size1 + size2)/2 - common over the clusters |
| TripletMetric.TallyCounts | Fig_S2/TreeCmp/src/treecmp/metric/TripletMetric.java:105-118 | the pattern map holds exactly the patterns seen, each with its number of occurrences |
| TripletMetric.TallyPairs | Fig_S2/TreeCmp/src/treecmp/metric/TripletMetric.java:105-123 | summing val·(val−1)/2 over the map's values counts the pairs of positions carrying the same pattern |
| TripletMetric.CountPatterns | Fig_S2/TreeCmp/src/treecmp/metric/TripletMetric.java:98-118 | the map loop skips index x and tallies the patterns (a[x][i], b[x][i]) |
| TripletMetric.ListCounts | Fig_S2/TreeCmp/src/treecmp/metric/TripletMetric.java:119-123 | the list holds, as a multiset, exactly the map's values of at least 2, and its pair sum is the map's |
| TripletMetric.GetPatternNum | Fig_S2/TreeCmp/src/treecmp/metric/TripletMetric.java:98-125 | the list holds, as a multiset, exactly the pattern counts of at least 2 over the other leaves, and their pair sum is the number of pairs of other leaves with equal patterns |
| TripletMetric.BigValuesAt | Fig_S2/TreeCmp/src/treecmp/metric/TripletMetric.java:119-123 | the listed values of a map do not depend on which key the iteration takes first |
| TripletMetric.SumCounts | Fig_S2/TreeCmp/src/treecmp/metric/TripletMetric.java:57-60 | the inner loop adds val·(val−1)/2 for every listed value |
| TripletMetric.RowIsLcaRow | Fig_S2/TreeCmp/src/treecmp/metric/TripletMetric.java:48-49 | a row of an lca matrix is the lca row of the tree |
| TripletMetric.CommonTriplets | Fig_S2/TreeCmp/src/treecmp/metric/TripletMetric.java:53-61 | commonT is the number, over every leaf x, of pairs of other leaves sharing their lca pattern with x in both trees |
| TripletMetric.GetDistForBinary | Fig_S2/TreeCmp/src/treecmp/metric/TripletMetric.java:46-65 | the distance is n(n−1)(n−2)/6 minus commonT |
| TripletMetric.GetDistance | Fig_S2/TreeCmp/src/treecmp/metric/TripletMetric.java:36-44 | two binary trees give getDistForBinary; any other pair gives the TripletMetric2 sum |
| TripletMetric.SamePairsSwap | Fig_S2/TreeCmp/src/treecmp/metric/TripletMetric.java:110 | exchanging the roles of the two matrices does not change the pair count |
| TripletMetric2.CladeSizesOf | Fig_S2/TreeCmp/src/treecmp/metric/TripletMetric2.java:35-37 | the cluster sizes of t2 that calcClustIntersectMatrix records: one per node, the size of its leaf set |
| TripletMetric2.GetDistance | Fig_S2/TreeCmp/src/treecmp/metric/TripletMetric2.java:30-45 | the distance is resolved triplets of t2 minus resolved-and-equal plus resolved-only-in-t1, over the intersection matrix of the two trees and their post orders |
| LcaOrder.LcaFacts | Fig_S2/TreeCmp/src/treecmp/common/TreeCmpUtils.java:100-105 | for two different leaves the lca entry is an internal node holding both in different children, the same either way round, and the nodal entry is the number of edges from the first leaf up to it |
| LcaOrder.TripleShape | Fig_S2/TreeCmp/src/treecmp/metric/TripletMetricSimple.java:80-86 | of the three lcas of three different leaves, two coincide and the third is the same node or lies strictly below it |
| TripletMetricSimple.GetTripletType | Fig_S2/TreeCmp/src/treecmp/metric/TripletMetricSimple.java:87-103 | one of i, j, k or −1; on the nodal-splitted matrix of a tree it is that tree's class of the triple, `TypeOf`, which `TypeOfMeaning` characterises by the three lcas |
| TripletMetricSimple.TypeOfMeaning | Fig_S2/TreeCmp/src/treecmp/metric/TripletMetricSimple.java:80-103 | for three different leaves the type is i exactly when lca(j,k) lies strictly below lca(i,j) = lca(i,k), j and k likewise, and −1 exactly when the three lcas coincide |
| TripletMetricSimple.NoSmallerSecondRow | Fig_S2/TreeCmp/src/treecmp/metric/TripletMetricSimple.java:93-100 | once ns[j][i] = ns[j][k], ns[i][j] is never smaller than ns[i][k], so the unresolved case is the equal one |
| TripletMetricSimple.Visit | Fig_S2/TreeCmp/src/treecmp/metric/TripletMetricSimple.java:56-71 | one triplet adds one to sum, one to the common counts exactly when the two types agree, and the same to both unresolved counts |
| TripletMetricSimple.VisitK | Fig_S2/TreeCmp/src/treecmp/metric/TripletMetricSimple.java:55-72 | the k loop adds the k-range counts |
| TripletMetricSimple.VisitJ | Fig_S2/TreeCmp/src/treecmp/metric/TripletMetricSimple.java:54-73 | the j loop adds the j-range counts |
| TripletMetricSimple.GetDistForArbitrary | Fig_S2/TreeCmp/src/treecmp/metric/TripletMetricSimple.java:40-78 | the distance is the number of triplets i < j < k less those whose types agree in the two trees |
| TripletMetricSimple.GetDistance | Fig_S2/TreeCmp/src/treecmp/metric/TripletMetricSimple.java:28-30 | the same as getDistForArbitrary |
| TripletMetricSimple.AllTriplesCount | Fig_S2/TreeCmp/src/treecmp/metric/TripletMetricSimple.java:53-71 | sum ends at n(n−1)(n−2)/6 |
| TripletMetricSimple.DistanceBounds | Fig_S2/TreeCmp/src/treecmp/metric/TripletMetricSimple.java:76 | the distance lies between 0 and n(n−1)(n−2)/6, and is 0 for a tree against itself |
| MCEdgeTest.RemovedInRow | Fig_4/TreeCmp/src/treecmp/metric/MCEdgeTest.java:44-56 | the inner loop counts the non-root internal nodes of t2 that fail the clade-size and depth test against node i |
| MCEdgeTest.GetDistance | Fig_4/TreeCmp/src/treecmp/metric/MCEdgeTest.java:30-61 | the result is the number of non-root pairs that pass the test, and at most (t1IntNum−1)(t2IntNum−1) |
| MCEdgeTest.PairsSplit | Fig_4/TreeCmp/src/treecmp/metric/MCEdgeTest.java:60 | passing and failing pairs together are all (t1IntNum−1)(t2IntNum−1) non-root pairs, so the returned product minus removedNum is the passing count |
| MatchingDis.Ptree.constructor | Fig_4/TreeCmp/Matching_Distance_Alternative/matching_dis.c:30-37 | a record with no leaves whose link arrays and square vector matrix share the one capacity |
| MatchingDis.Ptree.PtTree | Fig_4/TreeCmp/Matching_Distance_Alternative/matching_dis.c:43-72 | every node below the given one gets its bipartition vector: a childless node other than 0 marks itself, leaf 0 marks all others, an inner node is the sum modulo 2 of its children; every other row is kept |
| MatchingDis.Ptree.SumRows | Fig_4/TreeCmp/Matching_Distance_Alternative/matching_dis.c:67-69 | row node becomes the entrywise sum modulo 2 of rows x and y over the leaves, and nothing else changes |
| MatchingDis.BitIsSideAwayFromLeafZero | Fig_4/TreeCmp/Matching_Distance_Alternative/matching_dis.c:48-69 | the vector entry for leaf i is 1 exactly when leaf i and leaf 0 lie on different sides of the node's edge |
| MatchingDis.BitAtLeafZero | Fig_4/TreeCmp/Matching_Distance_Alternative/matching_dis.c:53-58 | every vector has 0 in leaf 0's place, so each bipartition has one normal form |
| MatchingDis.VecDistance | Fig_4/TreeCmp/Matching_Distance_Alternative/matching_dis.c:75-82 | 1 exactly when the two vectors agree on the first tree's leaves, else 0 |
| MatchingDis.FindMatch | Fig_4/TreeCmp/Matching_Distance_Alternative/matching_dis.c:99-105 | the inner loop finds a match exactly when some inner non-root node of the second tree has the same vector |
| MatchingDis.RfDistance | Fig_4/TreeCmp/Matching_Distance_Alternative/matching_dis.c:84-109 | n − 3 minus the number of nodes from n+2 upwards of the first tree that have a match, as written |
| MatchingDis.RfDistanceCorrected | Fig_4/TreeCmp/Matching_Distance_Alternative/matching_dis.c:96 | n − 3 minus the matched nodes among all inner non-root nodes except the root's duplicate edge |
| MatchingDis.RfIntendedSelfZero | Fig_4/TreeCmp/Matching_Distance_Alternative/matching_dis.c:107 | the corrected count is 0 for a tree against itself |
| MatchingDis.RfDistanceMissesFirstCherry | Fig_4/TreeCmp/Matching_Distance_Alternative/matching_dis.c:96 | two five-leaf trees that differ only in node n+1: rfdistance as written gives 0, the corrected count 1 |
| MatchingDis.Spe | Fig_4/TreeCmp/Matching_Distance_Alternative/matching_dis.c:123-130 | spe is the root's first child when that is an inner node, else its second child |
| MatchingDis.MismatchPlusAgreement | Fig_4/TreeCmp/Matching_Distance_Alternative/matching_dis.c:136-145 | temp1 + temp2 counts every leaf once |
| MatchingDis.CostBounds | Fig_4/TreeCmp/Matching_Distance_Alternative/matching_dis.c:146-150 | a cell is between 0 and half the leaves, and 0 for equal or complementary vectors (the same bipartition) |
| MatchingDis.CostMatrix | Fig_4/TreeCmp/Matching_Distance_Alternative/matching_dis.c:131-159 | the matrix is (n−3) by (n−3), row a being the a-th kept inner edge of the first tree against every kept edge of the second |
| MatchingDis.CellCost | Fig_4/TreeCmp/Matching_Distance_Alternative/matching_dis.c:136-150 | the smaller of the disagreeing and agreeing leaf counts |
| MatchingDis.FillRow | Fig_4/TreeCmp/Matching_Distance_Alternative/matching_dis.c:133-153 | one row of r holds the cost row of e1 and nothing outside it changes |
| MatchingDis.FillRows | Fig_4/TreeCmp/Matching_Distance_Alternative/matching_dis.c:131-159 | r holds the cost matrix row after row |
| MatchingDis.ComputeMatrix | Fig_4/TreeCmp/Matching_Distance_Alternative/matching_dis.c:112-163 | r holds the whole cost matrix laid out row-major, spe1 and spe2 skipped |
| MatchingDis.ArrayToMatrix | Fig_4/TreeCmp/Matching_Distance_Alternative/matching_dis.c:165-182 | cell (i, j) of the new matrix is entry i·cols + j of the array |
| MatchingDis.Assign | Fig_4/TreeCmp/Matching_Distance_Alternative/matching_dis.c:351-355 | the solver's cost is the optimum of the cost matrix |
| MatchingDis.SolveMatrix | Fig_4/TreeCmp/Matching_Distance_Alternative/matching_dis.c:346-363 | the distance is the least total cost of a perfect matching of the kept inner edges |
| MatchingDis.TreesMmdis | Fig_4/TreeCmp/Matching_Distance_Alternative/matching_dis.c:331-364 | both trees get their vectors, then the distance is the optimum of their cost matrix |
| MatchingDis.MmdisSelfZero | Fig_4/TreeCmp/Matching_Distance_Alternative/matching_dis.c:331-364 | a tree against itself has matching distance 0 |
| MatchingDis.MmdisBounds | Fig_4/TreeCmp/Matching_Distance_Alternative/matching_dis.c:331-364 | the distance lies between 0 and (n − 3) times half the leaves |
| MatchingDisParse.Run | Fig_4/TreeCmp/Matching_Distance_Alternative/matching_dis.c:270 | the longest run of digits or spaces from position k |
| MatchingDisParse.AtoiOfNumeral | Fig_4/TreeCmp/Matching_Distance_Alternative/matching_dis.c:270 | atoi reads back the decimal numeral of k, with or without a sign |
| MatchingDisParse.TakeLength | Fig_4/TreeCmp/Matching_Distance_Alternative/matching_dis.c:220-229 | in state 3 a branch length is stacked, and the copy fails exactly when it does not fit the 100-character buffer |
| MatchingDisParse.Step | Fig_4/TreeCmp/Matching_Distance_Alternative/matching_dis.c:219-297 | a ')' advances the inner node counter by one, no other character does, and only the current inner node's children change |
| MatchingDisParse.CloseAttachesTwo | Fig_4/TreeCmp/Matching_Distance_Alternative/matching_dis.c:219-262 | a ')' on a fresh inner node succeeds exactly when two nodes and two lengths are stacked, and then makes them its left and right child and pushes it |
| MatchingDisParse.Reset | Fig_4/TreeCmp/Matching_Distance_Alternative/matching_dis.c:209-216 | the first 2n links become −1, the rest are kept |
| MatchingDisParse.FinishAttachesRoot | Fig_4/TreeCmp/Matching_Distance_Alternative/matching_dis.c:299-324 | with two nodes left both become children of the root n; any other stack height is reported malformed and changes nothing |
| MatchingDisParse.ScanCountsCloses | Fig_4/TreeCmp/Matching_Distance_Alternative/matching_dis.c:202-262 | after a scan the inner node counter is n + 2 plus the number of ')' read |
| MatchingDisParse.ScanFresh | Fig_4/TreeCmp/Matching_Distance_Alternative/matching_dis.c:202-262 | the inner nodes not reached yet stay without children |
| MatchingDisParse.ScanBuilt | Fig_4/TreeCmp/Matching_Distance_Alternative/matching_dis.c:218-298 | every inner node reached has two children below it in id |
| MatchingDisParse.WellLabelledIsRanked | Fig_4/TreeCmp/Matching_Distance_Alternative/matching_dis.c:185-328 | a successful parse gives links on which pttree terminates |
| MatchingDisParse.InitRecord | Fig_4/TreeCmp/Matching_Distance_Alternative/matching_dis.c:207-216 | the first 2n entries of the link arrays become −1 and the 2n by 2n corner of the vector matrix 0 |
| MatchingDisParse.Link | Fig_4/TreeCmp/Matching_Distance_Alternative/matching_dis.c:236-243 | the child's parent is set, and the child goes in the parent's left slot when it is free, else its right slot |
| MatchingDisParse.Pop | Fig_4/TreeCmp/Matching_Distance_Alternative/matching_dis.c:230-243 | one pop does what the reference attach does, including its failures |
| MatchingDisParse.StepRecord | Fig_4/TreeCmp/Matching_Distance_Alternative/matching_dis.c:219-297 | one pass of the loop body does what the reference step does to the record |
| MatchingDisParse.FinishRecord | Fig_4/TreeCmp/Matching_Distance_Alternative/matching_dis.c:299-324 | the end of the procedure does what the reference finish does |
| MatchingDisParse.NewickToLcbb | Fig_4/TreeCmp/Matching_Distance_Alternative/matching_dis.c:185-328 | the record ends exactly as the reference parse says, failing exactly when it does, with the vector corner cleared and n leaves recorded |
| QtLeaf.CompareZero | Fig_4/TreeCmp/src/treecmp/qt/Leaf.java:186-188 | String.compareTo gives 0 exactly for equal names |
| QtLeaf.CompareFlips | Fig_4/TreeCmp/src/treecmp/qt/Leaf.java:186-188 | exchanging the two names flips the sign of the comparison |
| QtLeaf.CompareTransitive | Fig_4/TreeCmp/src/treecmp/qt/Leaf.java:186-188 | the name order is transitive |
| QtLeaf.CompareTotal | Fig_4/TreeCmp/src/treecmp/qt/Leaf.java:186-188 | any two names are ordered one way or the other |
| QtLeaf.QuotedWraps | Fig_4/TreeCmp/src/treecmp/qt/Leaf.java:134-142 | a name is quoted exactly when it holds a blank or two quotes in a row, and then it is the name between single quotes |
| QtLeaf.QuoteName | Fig_4/TreeCmp/src/treecmp/qt/Leaf.java:136-142 | the loop gives the quoted form of the name |
| QtLeaf.Leaf.constructor | Fig_4/TreeCmp/src/treecmp/qt/Leaf.java:35-37 | a leaf with the given name, no edge and id 0 |
| QtLeaf.Leaf.AddNeighbour | Fig_4/TreeCmp/src/treecmp/qt/Leaf.java:40-43 | the leaf's one edge now leads to the neighbour; name and id are kept |
| QtLeaf.Leaf.SetId | Fig_4/TreeCmp/src/treecmp/qt/Leaf.java:216-218 | only the id changes |
| QtLeaf.Leaf.NumEdges | Fig_4/TreeCmp/src/treecmp/qt/Leaf.java:173-178 | 1 exactly when the leaf has an edge, else 0 |
| QtLeaf.Leaf.CompareTo | Fig_4/TreeCmp/src/treecmp/qt/Leaf.java:186-188 | 0 exactly for equal names, negative exactly when the other name comes after this one |
| QtLeaf.Leaf.Equals | Fig_4/TreeCmp/src/treecmp/qt/Leaf.java:195-197 | true exactly for a non-null leaf of the same name, so it agrees with compareTo |
| QtLeaf.Leaf.Delete | Fig_4/TreeCmp/src/treecmp/qt/Leaf.java:121-125 | null exactly when the leaf has no edge; a leaf joined to a leaf leaves that other leaf |
| QtLeaf.Leaf.GetString | Fig_4/TreeCmp/src/treecmp/qt/Leaf.java:133-160 | called from outside with an edge to a leaf, the pair of quoted names; with an edge to an inner node, that node's string; otherwise L and the quoted name |
| QtParser.TrimStart | Fig_4/TreeCmp/src/treecmp/qt/SimpleParser.java:37 | a suffix of the input that starts past every leading character up to the space |
| QtParser.TrimEnd | Fig_4/TreeCmp/src/treecmp/qt/SimpleParser.java:37 | a prefix of the input that stops before every trailing character up to the space |
| QtParser.Trim | Fig_4/TreeCmp/src/treecmp/qt/SimpleParser.java:37 | a non-empty result starts and ends with a character above the space |
| QtParser.Prepare | Fig_4/TreeCmp/src/treecmp/qt/SimpleParser.java:37-40 | the prepared text always ends with ';' |
| QtParser.PrepareIdempotent | Fig_4/TreeCmp/src/treecmp/qt/SimpleParser.java:37-40 | preparing twice is preparing once |
| QtParser.Stop | Fig_4/TreeCmp/src/treecmp/qt/SimpleParser.java:104-134 | the first position from k on whose character is a stop, or the end |
| QtParser.LabelOf | Fig_4/TreeCmp/src/treecmp/qt/SimpleParser.java:113-118 | the trimmed label, refused exactly when it still holds a blank |
| QtParser.QuotedLabelAt | Fig_4/TreeCmp/src/treecmp/qt/SimpleParser.java:89-99 | on success the label stops at a quote after the opening one and holds everything read before it, doubled quotes after a character included; the only failure is the index error of running off the text |
| QtParser.UnquotedLabelAt | Fig_4/TreeCmp/src/treecmp/qt/SimpleParser.java:102-119 | a label stops before one of ",):[", and fails only on running off the text, a forbidden character or a blank |
| QtParser.UnquotedLabelCloses | Fig_4/TreeCmp/src/treecmp/qt/SimpleParser.java:102-119 | the character loop equals the closed form: the text to the next label end, the first forbidden character in it refused, then the blank check |
| QtParser.CommentCloseAt | Fig_4/TreeCmp/src/treecmp/qt/SimpleParser.java:122-130 | a comment ends at a ']' after its start, or fails as unclosed or out of range |
| QtParser.CommentCloses | Fig_4/TreeCmp/src/treecmp/qt/SimpleParser.java:122-130 | the comment ends at the first ']' after its start, and is unclosed exactly when there is none |
| QtParser.BranchLengthAt | Fig_4/TreeCmp/src/treecmp/qt/SimpleParser.java:132-143 | a length stops before one of ",)[;", and fails only out of range or when it is not a number |
| QtParser.BranchLengthCloses | Fig_4/TreeCmp/src/treecmp/qt/SimpleParser.java:132-143 | the length is the text up to the next stop, accepted exactly when it parses as a number |
| QtParser.Items | Fig_4/TreeCmp/src/treecmp/qt/SimpleParser.java:55-85 | a parsed item list is an inner node and never moves the position back |
| QtParser.NodeAt | Fig_4/TreeCmp/src/treecmp/qt/SimpleParser.java:48-86 | a parsed node is an inner node that ends after its '(' |
| QtParser.ItemsCloses | Fig_4/TreeCmp/src/treecmp/qt/SimpleParser.java:56-58 | a ')' ends the node with the children read so far |
| QtParser.ItemsSkips | Fig_4/TreeCmp/src/treecmp/qt/SimpleParser.java:73 | a blank or a ',' is skipped |
| QtParser.ItemsTakesNode | Fig_4/TreeCmp/src/treecmp/qt/SimpleParser.java:59-63 | a '(' parses a child node, appends it and goes on after it |
| QtParser.ItemsTakesLabel | Fig_4/TreeCmp/src/treecmp/qt/SimpleParser.java:78-82 | any other character starts an unquoted leaf, appended as a child |
| QtParser.ItemsNeverMissParen | Fig_4/TreeCmp/src/treecmp/qt/SimpleParser.java:55-85 | inside a node the missing-'(' error cannot arise |
| QtParser.EndAt | Fig_4/TreeCmp/src/treecmp/qt/SimpleParser.java:146-154 | the tail check fails only out of range, on a bad length, or on data after ';' |
| QtParser.EndRejectsEarlySemicolon | Fig_4/TreeCmp/src/treecmp/qt/SimpleParser.java:146-154 | after the tree, a ';' before the last character is refused and anything else is accepted |
| QtParser.Newick | Fig_4/TreeCmp/src/treecmp/qt/SimpleParser.java:36-45 | a parsed tree is an inner node |
| QtParser.NewickNeedsParen | Fig_4/TreeCmp/src/treecmp/qt/SimpleParser.java:49-51 | parsing fails with a missing '(' exactly when the prepared text does not start with '(' |
| QtParser.CommentSkipsNextChar | Fig_4/TreeCmp/src/treecmp/qt/SimpleParser.java:83-128 | as written, parsing resumes two characters after the ']' |
| QtParser.CommentResumesAfterBracket | Fig_4/TreeCmp/src/treecmp/qt/SimpleParser.java:83-128 | corrected, parsing resumes just after the ']' |
| QtParser.CommentSwallowsParen | Fig_4/TreeCmp/src/treecmp/qt/SimpleParser.java:122-130 | on "((a[x]),b);" the parser as written loses the ')' after the comment and gives ((a,b)) |
| QtParser.CommentKeepsParen | Fig_4/TreeCmp/src/treecmp/qt/SimpleParser.java:122-130 | corrected, the same text gives ((a),b) |
| QtParser.SimpleParser.constructor | Fig_4/TreeCmp/src/treecmp/qt/SimpleParser.java:27-29 | a parser with no text at position 0 |
| QtParser.SimpleParser.Parse | Fig_4/TreeCmp/src/treecmp/qt/SimpleParser.java:36-45 | the result is the reference parse of the prepared text, and that text is kept |
| QtParser.SimpleParser.ParseNode | Fig_4/TreeCmp/src/treecmp/qt/SimpleParser.java:48-86 | the result and the end position are the reference node parse's, and a success moves forward |
| QtParser.SimpleParser.ParseItem | Fig_4/TreeCmp/src/treecmp/qt/SimpleParser.java:55-83 | one pass of the loop is a step of the reference item parse |
| QtParser.SimpleParser.ParseQuotedLabel | Fig_4/TreeCmp/src/treecmp/qt/SimpleParser.java:89-99 | the result and the end position are the reference quoted label's |
| QtParser.SimpleParser.ParseUnQuotedLabel | Fig_4/TreeCmp/src/treecmp/qt/SimpleParser.java:102-119 | the result and the end position are the reference unquoted label's |
| QtParser.SimpleParser.ParseComment | Fig_4/TreeCmp/src/treecmp/qt/SimpleParser.java:122-130 | on success the position is just past the closing ']', as the reference says; a failure is the reference's |
| QtParser.SimpleParser.ParseBranchLength | Fig_4/TreeCmp/src/treecmp/qt/SimpleParser.java:132-143 | the end position or the failure is the reference length's |
| QtParser.SimpleParser.CheckEnd | Fig_4/TreeCmp/src/treecmp/qt/SimpleParser.java:146-154 | the result is the reference tail check |
| QtDistance.Choose4Small | Fig_S2/TreeCmp/src/treecmp/qt/Distance.java:98-100 | fewer than four leaves have no quartet |
| QtDistance.Choose4Monotone | Fig_S2/TreeCmp/src/treecmp/qt/Distance.java:98-100 | choose4 is never negative and never decreases on leaf counts |
| QtDistance.MissingLists | Fig_S2/TreeCmp/src/treecmp/qt/Distance.java:125-144 | the delete list holds exactly the positions whose names the other tree lacks, each once and in increasing order |
| QtDistance.WalkKeepsCount | Fig_S2/TreeCmp/src/treecmp/qt/Distance.java:125-144 | every step of the merge walk deletes one position or matches one on each side, so the two sides keep equally many |
| QtDistance.WalkTail | Fig_S2/TreeCmp/src/treecmp/qt/Distance.java:141-144 | once one array is used up the walk deletes every remaining position of the other, in order |
| QtDistance.WalkFindsMissing | Fig_S2/TreeCmp/src/treecmp/qt/Distance.java:125-144 | on arrays without repeated names the walk's delete lists are exactly the positions whose names the other array lacks |
| QtDistance.RepeatedNameDeleted | Fig_S2/TreeCmp/src/treecmp/qt/Distance.java:125-137 | a repeated name is deleted although the other array has it: [x, x] against [x] deletes position 1 |
| QtDistance.WalkBoth | Fig_S2/TreeCmp/src/treecmp/qt/Distance.java:125-137 | the first loop stops when one array is used up, having produced the first part of the walk's delete lists, with equal kept counts so far |
| QtDistance.Drain | Fig_S2/TreeCmp/src/treecmp/qt/Distance.java:141-144 | a closing loop appends every position from i up to the array length, in order |
| QtDistance.PruneTrees | Fig_S2/TreeCmp/src/treecmp/qt/Distance.java:117-150 | the delete lists are the merge walk's for any input, and the missing names' without repeated names; both trees keep the same number of leaves; pruning fails exactly when that number is at most 3 |
| QtDistance.NoDeletesIffContained | Fig_S2/TreeCmp/src/treecmp/qt/Distance.java:56 | nothing is missing from the first tree exactly when its every leaf is in the second; without repeated names the walk then deletes nothing from it, and only then |
| QtDistance.CommonCount | Fig_S2/TreeCmp/src/treecmp/qt/Distance.java:146 | the two pruned trees keep the same number of leaves, for any input |
| QtDistance.DistanceChargesUnsharedQuartets | Fig_S2/TreeCmp/src/treecmp/qt/Distance.java:61-95 | on different leaf sets the distance is the pruned disagreement plus the quartets only in t1 and only in t2 that getMeasures reports |
| QtDistance.PrunedFormulaAgrees | Fig_S2/TreeCmp/src/treecmp/qt/Distance.java:61-68 | on equal leaf counts with nothing deleted the pruned formula gives calcDistance's result back |
| QtDistance.DistanceBounds | Fig_S2/TreeCmp/src/treecmp/qt/Distance.java:42-76 | the distance lies between 0 and choose4(n1) + choose4(n2) |
| QtDistance.FailedPruneChargesAll | Fig_S2/TreeCmp/src/treecmp/qt/Distance.java:70-95 | a failed pruning charges every quartet of both trees, and getMeasures then reports no shared quartets |
| QtDistance.GetDistance | Fig_S2/TreeCmp/src/treecmp/qt/Distance.java:42-76 | calcDistance's result on equal leaf sets; every quartet of both trees when pruning fails; otherwise the pruned trees' disagreement plus, for each tree, the quartets that use one of its deleted leaves; `DistanceBounds` bounds it by 0 and choose4(n1) + choose4(n2) |
| QtDistance.GetMeasures | Fig_S2/TreeCmp/src/treecmp/qt/Distance.java:78-96 | after a successful prune qdist + qsim are all quartets of the pruned trees and the last two numbers are each tree's quartets that use a deleted leaf; after a PruneException qdist and qsim are 0 and the last two are choose4 of the deletion counts |
| QtEdge.SetSize | scripts/Topological_Congruence/TreeCmp/src/treecmp/qt/Edge.java:46-64 | the edge's size becomes the number of leaves beyond it; a size already positive is kept and only non-positive sizes change, each to its subtree size |
| QtEdge.PairCountLeaves | scripts/Topological_Congruence/TreeCmp/src/treecmp/qt/Edge.java:86-87 | two single leaves share one leaf exactly when their names are equal |
| QtEdge.PairCountAppendLeft | scripts/Topological_Congruence/TreeCmp/src/treecmp/qt/Edge.java:100-110 | the shared count over a joined left side is the sum over its parts |
| QtEdge.PairCountAppendRight | scripts/Topological_Congruence/TreeCmp/src/treecmp/qt/Edge.java:88-98 | the shared count over a joined right side is the sum over its parts |
| QtEdge.IntSize | scripts/Topological_Congruence/TreeCmp/src/treecmp/qt/Edge.java:74-158 | the cell for the two edges ends at the number of leaves the two subtrees share, read from the table when it is filled; filled cells are never changed and every filled cell is right |
| QtEdge.SumOverLeft | scripts/Topological_Congruence/TreeCmp/src/treecmp/qt/Edge.java:100-110 | summing over the edges leaving t1's to-node, the back edge excluded, gives the shared count |
| QtEdge.AddLeft | scripts/Topological_Congruence/TreeCmp/src/treecmp/qt/Edge.java:104-108 | one step adds the next edge's share |
| QtEdge.SumOverRight | scripts/Topological_Congruence/TreeCmp/src/treecmp/qt/Edge.java:88-98 | summing over the edges leaving t2's to-node, the back edge excluded, gives the shared count |
| QtEdge.AddRight | scripts/Topological_Congruence/TreeCmp/src/treecmp/qt/Edge.java:92-96 | one step adds the next edge's share |
| QtTree.PairCountIsShared | scripts/Topological_Congruence/TreeCmp/src/treecmp/qt/Edge.java:74-113 | for lists without repeated names the pair count is the number of shared names |
| QtTree.Complement | Fig_S2/TreeCmp/src/treecmp/qt/Tree.java:99-112 | with edges that split the leaves and equal leaf sets, the up-up, down-up and up-down counts are what calcInterSizes fills in |
| QtTree.SortNames | Fig_S2/TreeCmp/src/treecmp/qt/Tree.java:261 | the leaves end sorted by name and are a permutation of the leaves before |
| QtTree.InsertLast | Fig_S2/TreeCmp/src/treecmp/qt/Tree.java:261 | one insertion step keeps the permutation and extends the sorted prefix |
| QtTree.SwapDown | Fig_S2/TreeCmp/src/treecmp/qt/Tree.java:261 | exactly two neighbours are exchanged |
| QtTree.SortedIsStrict | Fig_S2/TreeCmp/src/treecmp/qt/Tree.java:261 | with no repeated name the sorted leaves strictly increase, as pruneTrees expects |
| QtTree.Degrees | Fig_S2/TreeCmp/src/treecmp/qt/Tree.java:280-291 | one degree per inner node, its number of edges |
| QtTree.MinFromIsLeast | Fig_S2/TreeCmp/src/treecmp/qt/Tree.java:278-283 | the folded minimum is at most the start and every degree, and is one of them |
| QtTree.MaxFromIsGreatest | Fig_S2/TreeCmp/src/treecmp/qt/Tree.java:288-293 | the folded maximum is at least the start and every degree, and is one of them |
| QtTree.ComputeSizes | Fig_S2/TreeCmp/src/treecmp/qt/Tree.java:256-259 | every edge gets its subtree size |
| QtTree.QTree.constructor | Fig_S2/TreeCmp/src/treecmp/qt/Tree.java:241-273 | edge sizes are the subtree sizes, the leaves are the collected leaves sorted, and both degrees are still unknown |
| QtTree.QTree.GetMinDegree | Fig_S2/TreeCmp/src/treecmp/qt/Tree.java:278-283 | the least number of edges of an inner node, from Integer.MAX_VALUE; the other cache is kept |
| QtTree.QTree.GetMaxDegree | Fig_S2/TreeCmp/src/treecmp/qt/Tree.java:288-293 | the largest number of edges of an inner node, from −1; the other cache is kept |
| QtTree.DownRow | Fig_S2/TreeCmp/src/treecmp/qt/Tree.java:92-95 | every down-down cell of one row is filled, and filled cells keep their values |
| QtTree.FillDownDown | Fig_S2/TreeCmp/src/treecmp/qt/Tree.java:91-95 | every down-down cell holds the intersection size of its two edges |
| QtTree.QuadRow | Fig_S2/TreeCmp/src/treecmp/qt/Tree.java:98-112 | the three other quadrants of one row follow the formulas from its down-down cells, which stay as they were |
| QtTree.FillQuadrants | Fig_S2/TreeCmp/src/treecmp/qt/Tree.java:97-113 | every pair of single-direction edges has its three quadrants filled by the formulas |
| QtTree.FormulasGiveQuadrants | Fig_S2/TreeCmp/src/treecmp/qt/Tree.java:91-113 | cells that hold intersection sizes and the formulas together give the whole table |
| QtTree.QuadrantsGiveShared | Fig_S2/TreeCmp/src/treecmp/qt/Tree.java:97-113 | with equal leaf sets the formulas give the intersection sizes of the back edges too |
| QtTree.QTree.FillInterSizes | Fig_S2/TreeCmp/src/treecmp/qt/Tree.java:82-149 | refused exactly when either handle is a leaf; otherwise a new table of edges by edges with every quadrant filled, and with the same leaves every cell of a single-direction pair or of its back edges is the intersection size |
| QtTree.QTree.CalcInterSizes | Fig_S2/TreeCmp/src/treecmp/qt/Tree.java:82-116 | the same with the int type's MIN_VALUE as the empty marker |
| QtTree.QTree.CalcInterSizesShort | Fig_S2/TreeCmp/src/treecmp/qt/Tree.java:118-149 | the same with the short type's MIN_VALUE as the empty marker |
| StatData.MetircDistrbHolder.constructor | Fig_4/TreeCmp/src/treecmp/statdata/MetircDistrbHolder.java:23-27 | an empty map with bounds at the largest int and −1 |
| StatData.MetircDistrbHolder.GetDistribution | Fig_4/TreeCmp/src/treecmp/statdata/MetircDistrbHolder.java:29-31 | the distribution stored under n exactly when there is one, else null |
| StatData.MetircDistrbHolder.GetMaxLeafNum | Fig_4/TreeCmp/src/treecmp/statdata/MetircDistrbHolder.java:33-35 | an upper bound on every stored leaf count |
| StatData.MetircDistrbHolder.GetMinLeafNum | Fig_4/TreeCmp/src/treecmp/statdata/MetircDistrbHolder.java:37-39 | a lower bound on every stored leaf count |
| StatData.MetircDistrbHolder.InsertDistribution | Fig_4/TreeCmp/src/treecmp/statdata/MetircDistrbHolder.java:41-48 | the distribution replaces the entry of its leaf count and the bounds widen just enough to take it in |
| StatData.BoundsIgnoreArgument | Fig_4/TreeCmp/src/treecmp/statdata/MetircDistrbHolder.java:33-39 | the getters ignore their argument |
| StatData.InsertThenGet | Fig_4/TreeCmp/src/treecmp/statdata/MetircDistrbHolder.java:41-48 | after an insert the new distribution is found under its leaf count and every other entry is kept |

## Left out

- Assignment solver: `LapSolver.lapShort` and `hungarian.h` are not part of this model.
  - `LapSolver.LapShort` and `MatchingDis.Assign` return the solver's contract: a permutation whose total no other permutation undercuts.
  - That contract is computed here by exhaustive search, not by the shortest-augmenting-path or Hungarian method.
- The pal tree library is foreign. It covers `Tree`, `Node`, `NodeUtils.postorderSuccessor`, `TreeUtils.getLeafIdGroup` and `IdGroup`.
  - Trees are an arena with a given post-order walk, and the id group is a name sequence.
  - Pal's internal node numbering is assumed to be post-order: children come before parents, and the root is the last internal node. `SplitDist.getSplits` relies on this.
- Node identity: `Node` objects become positions in the arena. Edge objects and their back edges in the quartet code become positions in an edge arena (`QtEdge.Net`). Object aliasing is therefore not modelled.
- Acyclicity: wherever recursion follows links, a ghost rank sequence serves as the acyclicity witness. This covers Edge.setSize, intSize and pttree.
- Hashed and linked collections:
  - `HashSet`, `LinkedHashSet`, `HashMap` and `BitSet` become sets, sequences and maps;
  - iteration order is not modelled;
  - `TripletMetric.MapPairsAt` proves that the pattern count does not depend on it;
  - the OptRF removal uses the list order of `LinkedHashSet`.
- TreeCmpUtils.mergeIdGroups: only the resulting name set is specified, with no duplicates. The HashSet order of the ids is not.
- 16-bit narrowing: the `(short)` casts are not modelled, and values are unbounded integers.
  - `MatchingSplitO3.MatchingSplitMetricO3.GetDistance`, `MatchingSplitFree.MatchingSpliMetricFree.GetDistance` and `MatchingClusterFree.MatchingClusterMetricFree.GetDistance` do not reproduce the wrap-around of their short cost matrices on large trees. The same holds for the short tables of `TreeCmpUtils.CalcClustIntersectMatrix`.
  - `QtTree.QTree.CalcInterSizesShort` requires every stored value to fit in 16 bits. It does not model the "short type is too small" message or the narrowing.
- Java `int` and `long` overflow is not modelled.
- Double results are returned as `real`. Every value involved is an integer or an integer over 2.
- Tree mutation in the quartet code is not part of this model: `InnerNode`, `removeNeighbour`, `makeBinary`, `copy` and `Tree.deleteLeaves`. `Leaf.delete` is modelled only as the node it returns.
- `Distance.calcDistance` is not part of this model. Its results on the trees and on the pruned trees are parameters of `QtDistance.GetDistance`.
- Tree.init: `accumulate` and `getSingleDirEdges` are inputs to the `QtTree.QTree` constructor.
  - They are the leaves, the inner nodes and the single-direction edges.
  - The edge ids and inner-node placements are their positions.
  - `Arrays.sort` is modelled by an insertion sort. Its result is determined, because equal names are equal.
- QtTree: the equal-leaf-set and subtree-split facts behind the complement identities are hypotheses (`Splits`, `SameLeaves`), not derived from the parse.
- MatchingClusterMetricO3.java is not part of the sources. `MatchingMetric.MatchingClusterMetric.GetDistance` and `GetAlignment` take its distance and alignment as parameters.
- Variant flags: the `IOSettings` flags read by the dispatchers are parameters.
- StatData: distribution objects are a type parameter. `StatData.MetircDistrbHolder.InsertDistribution` takes the distribution's `getLeafNum` as an argument.
- Floating point: `atof` branch lengths in `matching_dis.c` are only counted. `Double.parseDouble` in the simple parser is an `isNumber` predicate parameter.
- I/O and interaction are left out:
  - `main` and file I/O;
  - `fopen`/`fgets` in `newick2lcbb`;
  - the `printf`/`getchar` warnings of `compute_matrix` and `rfdistance`;
  - `System.out` messages, the CLI, reports and the Python scripts.
- MatchingDisParse.NewickToLcbb: undefined behaviour of the C reader is reported as a `Fault`. This covers popping an empty list, a label longer than the 100-character buffer and an id outside the arrays.
- MatchingDis.Ptree: the record's arrays have a capacity given at construction, in place of the fixed `MAXLEAF` globals.
- QtLeaf.Compare: names are ordered by Dafny `char`, that is by Unicode scalar value, while Java's `String.compareTo` orders UTF-16 code units. The two orders differ once a name holds a character above U+FFFF (U+10000 is one `char` here but two surrogate units in Java, which sort below U+FFFF), and lengths differ with them. The model relies only on `Compare` being a total order that gives 0 exactly on equal names. The positions in the delete lists follow the sorted order, but the set of names deleted and the quartet result do not depend on which total order is taken.
- ClusterDist.ClusterXor requires `|cladeT1| <= |cladeT2|`, and SplitDist.GetDist1Int requires `|split1| <= |split2|`. They rule out the `ArrayIndexOutOfBoundsException` a shorter second array would raise. Every caller passes two arrays of the common leaf count.
- TripletMetricSimple.TypeOfMeaning and TripletMetricSimple.NoSmallerSecondRow require `LcaOrder.Linked`: every non-root internal node is a child of its recorded parent, as in pal's trees. The arena does not enforce this by itself.
- TreeCmpUtils.CalcClustIntersectMatrix requires `Covers(idGroup, tree2)`. That rules out the exception path of pal's `mapExternalIdentifiers` when tree2 has a leaf the group does not name: pal throws, or a −1 alias reaches `BitSet.set` (ClustIntersectInfoMatrix.java:65-66).
- TreeCmpUtilsLca.CalcLcaMatrix requires `LcaReady(t, g)`. That rules out the same unnamed-leaf exception, and the out-of-bounds index of a group whose size is not the tree's leaf count.
- TreeCmpUtilsLca.CalcNodalSplittedMatrix requires `LcaReady(t, g)`. It rules out the same two exceptions as `CalcLcaMatrix`.
- MatchingSplitO3.MatchingSplitMetricO3.GetDistance requires `Covers(LeafIdGroup(t1), t2)`. It rules out the exception on a t2 leaf that t1 lacks. The OptRF and RF members model that case as a `Failure`, but this one does not.
- MatchingMetric.MatchingSplitMetric.GetDistance requires the same in its O3 branch, for the same reason.
- TripletMetric.GetDistForBinary requires `LcaReady(t2, LeafIdGroup(t1))`. It rules out two exceptions: a t2 leaf that t1 lacks, and `lcaMatrix2[x][i]` read past a t2 with fewer leaves (TripletMetric.java:49-50).
- TripletMetric.GetDistance requires the same, for the same two exceptions.
- TripletMetric2.GetDistance requires `Covers(LeafIdGroup(t1), t2)`. It rules out the exception on a t2 leaf that t1 lacks (TripletMetric2.java:35).
- TripletMetricSimple.GetDistForArbitrary requires `LcaReady(t2, LeafIdGroup(t1))`. It rules out two exceptions: a t2 leaf that t1 lacks, and `nsMatrix2` read past a t2 with fewer leaves (TripletMetricSimple.java:44, 57).
- TripletMetricSimple.GetDistance requires the same, for the same two exceptions.
- Apart from the free-leaf-set variants, the metrics compare trees on an identical leaf set. On such trees none of these exceptions arises.

## Findings

| source | as written | input that shows it | evidently intended | confidence | as-written member | corrected member |
|---|---|---|---|---|---|---|
| Fig_4/TreeCmp/Matching_Distance_Alternative/matching_dis.c:96 | the loop over tree A's splits starts at leaf_number+2, so internal node leaf_number+1 is never compared, while the root's duplicate edge is | the five-leaf trees (((1,2),3),4,5) and (((1,3),2),4,5), which differ only in the cherry read first (node n+1): rfdistance gives 0 | start at leaf_number+1 and skip the root's duplicate edge, as compute_matrix does; the distance is then 1 and a tree is at distance 0 from itself | not executed | MatchingDis.RfDistanceMissesFirstCherry | MatchingDis.RfDistanceCorrected |
| Fig_4/TreeCmp/src/treecmp/qt/SimpleParser.java:128 | parseComment leaves the position one past ']' and parseNode's loop then steps once more, so the character after a comment is skipped | "((a[x]),b);" parses as ((a,b)) | resume right after ']'; the same text then parses as ((a),b) | not executed | QtParser.CommentSwallowsParen | QtParser.CommentKeepsParen |

Both corrected definitions are beside the as-written ones.

- `MatchingDis.RfDistance`, which follows the program, carries the as-written count. `MatchingDis.RfIntendedSelfZero` proves the corrected count is 0 for a tree against itself. `trees_mmdis` does not call `rfdistance`.
- `QtParser.SimpleParser` follows the program. `QtParser.CommentResumesAfterBracket` proves that the corrected parser resumes just after every comment.
