# Verified models of the storage code in fbmm-workspace

This project models, in Dafny, the parts of the repository that keep data structures consistent, and proves
what they promise. Most of them belong to the PostgreSQL tree under `bmks/postgres/contrib`; one is the
page-walk benchmark.

* **Bloom index** (`Bloom*.dfy`). `BloomProtocol` is a state machine of any number of concurrent inserters,
  bulk deletes, cleanups and scans, with one step for each section that runs under a buffer lock; an error or
  a crash can end an operation at any point between steps, and the free space map may come to name any block.
  `BloomProtocolProof` and `BloomTheorems` prove its invariant and what follows for every run. `BloomRandom`,
  `BloomWords` and `BloomSignature` are the generator and the signatures, `BloomPage` the page layout.
  `BloomIndex` holds the operations as the code runs them, with loops over an index object; `BloomSolo` and
  `BloomAlone` show that each of them, undisturbed, is one of the interleavings of the protocol.
* **btree_gist keys of variable length** (`GbtVarKey`, `GbtLayout`, `Lex`), for bytea.
* **amcheck's B-tree verifier** (`Nbtree*.dfy`) in readonly mode, over arbitrary pages with arbitrary links:
  what acceptance of a page, a level and an index implies, and when the walks end. `NbtreePage`, `NbtreeLevel`
  and `NbtreeChild` are the single checks, `NbtreeParent` and `NbtreeWalk` say what they mean together, and
  `NbtreeCheck` is the state object with the loops. An error and a loop that never ends are told apart throughout.
* **cube** (`Cube*.dfy`): GiST search, union, split and nearest-neighbour bounds over cubes of mixed dimension.
* **Page-table window** (`PageTable`, `PageWindow`) of the page-walk benchmark.
* **basic_archive** (`Archive`), and the transaction id and TOAST checks of the heap verifier (`HeapXid`,
  `HeapToast`).

Code that updates objects, arrays or local variables in loops is modelled by classes and methods with loops,
and each such method is proved against a function or predicate about which the lemmas speak.

## Where the code does not do what one would expect

Each of these is stated by a lemma with a concrete input, next to the exact condition for the opposite.

* `mySrand` maps the seeds 0xFFFFFFFF and 0x80000001 to the absorbing state 0, after which every draw is -1
  (`BloomSignature.PositionsInRange`, `BloomSignature.PositionOutside`). SETBIT with a negative position is
  undefined in C; the model sets no bit then.
* `gbt_var_picksplit` on truncated keys can put a value out of reach (`GbtVarKey.SplitAdmits`,
  `GbtVarKey.SplitCanMiss`). This follows the code; the comments do not mention it.
* The level walk of amcheck can go round for ever over half-dead pages (`NbtreeLevel.RepeatsExactly`,
  `NbtreeWalk.RootCanGoRound`), and a child call can do so over pages with an incomplete split
  (`NbtreeChild.ForeverExactly`, `NbtreeWalk.ChildCallCanHang`).
* A downlink to block 0 is taken for the end of the level, and a right link 0xffffffff for none
  (`NbtreeParent.DownlinksAlongChildren`, `NbtreeParent.ZeroDownlinkPasses`, `NbtreeParent.LooseRightLinkPasses`).
* A contained-by search of cube can miss a leaf of lower dimension than the query
  (`CubeGist.ContainedByExact`, `CubeGist.ContainedByCanMiss`).

Two more places where the model follows the code, without a claim about them:

* In the call that ends a level, `bt_child_highkey_check` looks up line pointer 0 of the target page when a
  child page on the way has a high key. What it finds there is the field `lineZero` of the page.
* `write_physical` prints that a write to a low address is refused and then writes; the model writes.

## Model

| member | source | states |
|---|---|---|
| BloomRandom.Schrage | bmks/postgres/contrib/bloom/blutils.c:226-246 | from every int32 state the overflow-free form stays in int32 and is 16807 * state mod (2^31 - 1) |
| BloomRandom.AdvanceNonZero | bmks/postgres/contrib/bloom/blutils.c:239-247 | the generator comes to state 0 only from state 0, the multiplier being invertible |
| BloomRandom.Generator.MyRand | bmks/postgres/contrib/bloom/blutils.c:223-248 | every intermediate value fits int32 from every state, and the new state and result are those of the recurrence |
| BloomRandom.Generator.MySrand | bmks/postgres/contrib/bloom/blutils.c:250-256 | the seed goes through the conversion to int32 and the signed remainder |
| BloomRandom.SeedStateZero | bmks/postgres/contrib/bloom/blutils.c:250-256 | a seed leads to the absorbing state 0 if and only if it is 0xFFFFFFFF or 0x80000001; seeds below 2^31 lead into [1, 2^31-2] |
| BloomRandom.DrawRange | bmks/postgres/contrib/bloom/blutils.c:246-247 | from every other state all draws are in [0, 2^31-3], so all later states in [1, 2^31-2]; from state 0 all draws are -1 |
| BloomWords.SetBitBits | bmks/postgres/contrib/bloom/blutils.c:286-287 | SETBIT adds exactly its bit to the signature |
| BloomWords.WordsCoverIsSubset | bmks/postgres/contrib/bloom/blscan.c:146-154 | the word-wise test of a scan is set inclusion of the bits |
| BloomSignature.ColumnsSeparate | bmks/postgres/contrib/bloom/blutils.c:268-281 | equal hashes in different columns get different seeds |
| BloomSignature.AbsorbingHashes | bmks/postgres/contrib/bloom/blutils.c:273-281 | for each column exactly two hash values lead to the absorbing state |
| BloomSignature.PositionsInRange | bmks/postgres/contrib/bloom/blutils.c:281-287 | every bit drawn for a value lies in the signature if and only if its hash is none of the two |
| BloomSignature.PositionOutside | bmks/postgres/contrib/bloom/blutils.c:281-287 | for hash 0xFFFFBE59 in column 0 every draw is negative |
| BloomSignature.SignValue | bmks/postgres/contrib/bloom/blutils.c:261-289 | adds the bits of (column, hash) and nothing else, whatever state the shared generator was in |
| BloomSignature.FormTuple | bmks/postgres/contrib/bloom/blutils.c:294-313 | the tuple of a row depends on its column hashes only |
| BloomSignature.FormedUnique | bmks/postgres/contrib/bloom/blutils.c:294-313 | a row has one tuple |
| BloomSignature.SearchSignature | bmks/postgres/contrib/bloom/blscan.c:90-116 | no signature if a key is null, else the bits of all keys |
| BloomSignature.AnswerBitsIncluded | bmks/postgres/contrib/bloom/blscan.c:110-112 | the bits of keys that a row answers are among the bits of its tuple |
| BloomSignature.Matches | bmks/postgres/contrib/bloom/blscan.c:144-154 | the early-exit loop decides inclusion of bits |
| BloomPage.FitsBelowCapacity | bmks/postgres/contrib/bloom/bloom.h:152-155 | the size_t free space does not wrap within capacity, and a tuple fits if and only if the page is below capacity |
| BloomPage.AddItemKeeps | bmks/postgres/contrib/bloom/blutils.c:319-347 | a prepared page takes the tuple unless it is full, gains exactly that tuple, and keeps maxoff, pd_lower and bounds |
| BloomPage.EmptyPageAccepts | bmks/postgres/contrib/bloom/blinsert.c:320-324 | adding to an empty page cannot fail |
| BloomPage.CompactItems | bmks/postgres/contrib/bloom/blvacuum.c:81-111 | the two-pointer pass leaves the order-preserving filter of the page, the matching maxoff and the removal count |
| BloomPage.KeepDropPartition | bmks/postgres/contrib/bloom/blvacuum.c:88-107 | kept and removed tuples partition the page |
| BloomPage.KeepDropByCallback | bmks/postgres/contrib/bloom/blvacuum.c:91-104 | the partition is the callback's |
| BloomPage.VacuumPageKeeps | bmks/postgres/contrib/bloom/blvacuum.c:113-137 | a vacuumed page is valid, is deleted if and only if it is empty, and loses exactly the removed tuples |
| BloomProtocolProof.StepKeeps | bmks/postgres/contrib/bloom/blinsert.c:206-340 | every locked section of every operation keeps the invariant: pages, metapage list, locks, running operations, logs, conservation |
| BloomProtocolProof.ApplyKeeps | bmks/postgres/contrib/bloom/blinsert.c:228-240 | a tuple joins a page and the log of inserts in one step, also on a page recycled meanwhile |
| BloomProtocolProof.VacuumNextKeeps | bmks/postgres/contrib/bloom/blvacuum.c:58-139 | one page of a bulk delete, while inserts and scans run |
| BloomProtocolProof.ScanNextKeeps | bmks/postgres/contrib/bloom/blscan.c:125-167 | one page of a scan, while inserts and bulk deletes run |
| BloomTheorems.RunKeeps | bmks/postgres/contrib/bloom/blinsert.c:174-341 | the invariant holds in every state of every interleaving |
| BloomTheorems.Conservation | bmks/postgres/contrib/bloom/blinsert.c:206-340 | in every state of every run the tuples on live pages are those built in or inserted minus those removed, as multisets; the log of inserts is exactly the finished inserts, once each; a page that may be reinitialised holds no tuple; live pages are within capacity with maxoff and pd_lower to match; metapage entries name existing blocks |
| BloomTheorems.RemovalsByCallback | bmks/postgres/contrib/bloom/blvacuum.c:33-107 | in every run, every removed entry was taken from its page by a bulk delete that was begun with a callback naming it |
| BloomTheorems.ScanComplete | bmks/postgres/contrib/bloom/blscan.c:81-171 | a finished scan has reported every entry that was live when it began, answers the keys and was not removed meanwhile |
| BloomTheorems.ScanSound | bmks/postgres/contrib/bloom/blscan.c:146-161 | it reports only entries of the index whose signature covers the search |
| BloomTheorems.HolderRuns | bmks/postgres/contrib/bloom/blinsert.c:256-340 | the holder of the metapage can always go on; the "empty page" error is unreachable |
| BloomTheorems.NoDeadlock | bmks/postgres/contrib/bloom/blinsert.c:206-340 | every unfinished operation can step or waits for a holder that can |
| BloomIndex.Index.Build | bmks/postgres/contrib/bloom/blinsert.c:120-158 | the built index holds one tuple a row in heap order, on full pages but the last |
| BloomIndex.BuildStartsRuns | bmks/postgres/contrib/bloom/blinsert.c:120-168 | a built index, also an empty one, is an initial state of the protocol |
| BloomIndex.Index.Insert | bmks/postgres/contrib/bloom/blinsert.c:174-341 | an undisturbed insert adds one tuple, and is one of the interleavings of the protocol, step by step |
| BloomIndex.Index.TryBlock | bmks/postgres/contrib/bloom/blinsert.c:218-244 | one locked attempt on a candidate page |
| BloomIndex.Index.TryList | bmks/postgres/contrib/bloom/blinsert.c:271-309 | the candidate loop under the metapage lock |
| BloomIndex.Index.NewBuffer | bmks/postgres/contrib/bloom/blutils.c:354-395 | a reusable block of the free space map or a new one, losing no tuple |
| BloomIndex.Index.InsertNewPage | bmks/postgres/contrib/bloom/blinsert.c:311-340 | the fallback puts the tuple on a fresh page and makes it the only candidate |
| BloomIndex.Index.BulkDelete | bmks/postgres/contrib/bloom/blvacuum.c:33-161 | every page filtered, the list rebuilt as the first BloomMetaBlockN pages with room, the removal count |
| BloomIndex.RoomsSorted | bmks/postgres/contrib/bloom/blvacuum.c:117-120 | the list is ascending, hence duplicate-free, and holds exactly the pages with room |
| BloomIndex.VacuumedTuples | bmks/postgres/contrib/bloom/blvacuum.c:58-139 | a bulk delete removes all copies of the named entries and no others |
| BloomIndex.Index.VacuumCleanup | bmks/postgres/contrib/bloom/blvacuum.c:168-217 | reusable blocks enter the free space map; both statistics are right |
| BloomIndex.Index.GetBitmap | bmks/postgres/contrib/bloom/blscan.c:80-171 | the bitmap is the set of pointers of live covering tuples, and ntids their number; empty for a null key |
| BloomIndex.SelectedMembers | bmks/postgres/contrib/bloom/blscan.c:146-161 | the tuples a scan selects are those whose bits cover the search |
| BloomAlone.VacuumAlone | bmks/postgres/contrib/bloom/blvacuum.c:33-161 | run alone, the protocol's bulk delete ends in the pages and list of Index.BulkDelete |
| BloomAlone.CleanupAlone | bmks/postgres/contrib/bloom/blvacuum.c:168-217 | run alone, the protocol's cleanup records and counts what Index.VacuumCleanup does |
| BloomAlone.ScanAlone | bmks/postgres/contrib/bloom/blscan.c:118-171 | run alone, the protocol's scan reports the pointers of Index.GetBitmap |
| GbtVarKey.NodeCpLen | bmks/postgres/contrib/btree_gist/btree_utils_var.c:120-162 | the loop finds the common prefix length |
| GbtVarKey.BinUnion | bmks/postgres/contrib/btree_gist/btree_utils_var.c:232-277 | lesser lower and greater upper bound |
| GbtVarKey.Union | bmks/postgres/contrib/btree_gist/btree_utils_var.c:321-357 | the hull of all entries, cut two bytes behind the common prefix of its bounds |
| GbtVarKey.LeafExact | bmks/postgres/contrib/btree_gist/btree_utils_var.c:554-612 | on a leaf all six strategies are the operators |
| GbtVarKey.AdmitsMeans | bmks/postgres/contrib/btree_gist/btree_utils_var.c:554-612 | an inner key turns away no query that a value satisfies, under any strategy, if and only if value and key are in one stated relation |
| GbtVarKey.WithinCovers | bmks/postgres/contrib/btree_gist/btree_utils_var.c:232-277 | what a key covers, a wider key covers, though its truncated upper bound may be another |
| GbtVarKey.CompressedCovers | bmks/postgres/contrib/btree_gist/btree_utils_var.c:203-228 | truncation behind the common prefix loses no value |
| GbtVarKey.CutCovers | bmks/postgres/contrib/btree_gist/btree_utils_var.c:529-544 | a cut anywhere behind the common prefix of a hull keeps every value between its bounds |
| GbtVarKey.EqualBounds | bmks/postgres/contrib/btree_gist/btree_utils_var.c:603-606 | equal bounds stand for one value, so not-equal may prune |
| GbtVarKey.TreeCovers | bmks/postgres/contrib/btree_gist/btree_utils_var.c:321-357 | every key of a tree of repeated unions and truncations, and of leaf pages made by splits, covers every value below it |
| GbtVarKey.SearchExact | bmks/postgres/contrib/btree_gist/btree_utils_var.c:554-612 | a search finds exactly the values that satisfy the operator, for all six strategies and every such tree |
| GbtVarKey.PickSplit | bmks/postgres/contrib/btree_gist/btree_utils_var.c:457-547 | both sides get the hull of their entries, cut behind the longer of the two prefixes |
| GbtVarKey.SplitDeals | bmks/postgres/contrib/btree_gist/btree_utils_var.c:505-527 | every entry goes to exactly one side |
| GbtVarKey.SplitAdmits | bmks/postgres/contrib/btree_gist/btree_utils_var.c:529-544 | a side's key admits every value its entries allow if and only if none of them hides one, a condition on the entries, their hull and the cut |
| GbtVarKey.LeavesHideNothing | bmks/postgres/contrib/btree_gist/btree_utils_var.c:529-544 | splits of leaf entries lose nothing |
| GbtVarKey.SplitCanMiss | bmks/postgres/contrib/btree_gist/btree_utils_var.c:501-544 | a split of four keys of real pages, in the order of the sort, after which a value stored below the first is out of reach |
| GbtLayout.LeafRoundTrip | bmks/postgres/contrib/btree_gist/btree_utils_var.c:57-84 | a stored leaf key reads back as its value twice |
| GbtLayout.KeyRoundTrip | bmks/postgres/contrib/btree_gist/btree_utils_var.c:57-102 | a stored inner key reads back as its two bounds, with alignment gap and headers |
| GbtLayout.TruncateStores | bmks/postgres/contrib/btree_gist/btree_utils_var.c:203-228 | truncation in place stores what gbt_var_key_copy would store of the truncated key |
| NbtreePage.InvariantsMean | bmks/postgres/contrib/amcheck/verify_nbtree.c:3161-3269 | the three comparisons with their extra step are the order in which truncated attributes are minus infinity |
| NbtreePage.RightPageCheckScankey | bmks/postgres/contrib/amcheck/verify_nbtree.c:1957-2157 | first real item of the first live page to the right; an error, an endless circle and no item are told apart |
| NbtreePage.CheckItem | bmks/postgres/contrib/amcheck/verify_nbtree.c:1691-1868 | high key, next item and last item checks pass, raise an error or run for ever exactly as the order on keys and the pages to the right say |
| NbtreePage.HalfDeadDistinct | bmks/postgres/contrib/amcheck/verify_nbtree.c:1138-1189 | the leftward walk meets no block twice on any block map |
| NbtreePage.LeftmostIgnoringHalfDead | bmks/postgres/contrib/amcheck/verify_nbtree.c:1138-1189 | it ends on every index, and accepts if and only if a chain of agreeing half-dead pages leads to the left end |
| NbtreeLevel.RepeatsExactly | bmks/postgres/contrib/amcheck/verify_nbtree.c:776-961 | on any links, a level walk comes to a block again if and only if two of its right links lead to one half-dead page, or one leads back to its first page and one of those two pages is half-dead |
| NbtreeLevel.WalkCanGoRound | bmks/postgres/contrib/amcheck/verify_nbtree.c:776-961 | from a root with a half-dead neighbour the walk goes on for any number of pages, all checks passing |
| NbtreeLevel.LeafLevelIncreasing | bmks/postgres/contrib/amcheck/verify_nbtree.c:1419-1868 | the items of a level of ordered pages increase strictly from first to last |
| NbtreeChild.DownlinkMissingCheck | bmks/postgres/contrib/amcheck/verify_nbtree.c:2648-2814 | accepts if and only if the page is a root, follows an incomplete split, or tops an interrupted deletion |
| NbtreeChild.DescentEnds | bmks/postgres/contrib/amcheck/verify_nbtree.c:2726-2756 | the descent to the leaf ends on every index: levels go down by one modulo 2^32 and there are fewer blocks |
| NbtreeChild.ChildHighkeyCheck | bmks/postgres/contrib/amcheck/verify_nbtree.c:2236-2468 | passes, raises an error or runs for ever exactly as the walk over right links to the downlink does; the right link 0xffffffff is remembered as none |
| NbtreeChild.WalkFacts | bmks/postgres/contrib/amcheck/verify_nbtree.c:2282-2467 | an accepted walk goes over right links from its start to the downlink, or to the end of the level |
| NbtreeChild.ForeverExactly | bmks/postgres/contrib/amcheck/verify_nbtree.c:2282-2467 | a call never ends if and only if two different blocks on its way have the same right link and all checks pass over both |
| NbtreeChild.ForeverUnbounded | bmks/postgres/contrib/amcheck/verify_nbtree.c:2282-2467 | never ending is running over any number of pages |
| NbtreeParent.VisitKeeps | bmks/postgres/contrib/amcheck/verify_nbtree.c:2282-2467 | a call for a downlink extends the chain of the child level up to it |
| NbtreeParent.DownlinksAlongChildren | bmks/postgres/contrib/amcheck/verify_nbtree.c:2236-2468 | the downlinks are a subsequence of the child level's whole chain, with every block passed over accounted for, if and only if none is P_NONE and none leads to a page with right link 0xffffffff |
| NbtreeParent.ZeroDownlinkPasses | bmks/postgres/contrib/amcheck/verify_nbtree.c:2280-2293 | a root whose only downlink is P_NONE passes |
| NbtreeParent.LooseRightLinkPasses | bmks/postgres/contrib/amcheck/verify_nbtree.c:2274-2293 | a root over a leaf with right link 0xffffffff and an incomplete split passes, though the children do not end the level |
| NbtreeParent.ChildCallCanGoRound | bmks/postgres/contrib/amcheck/verify_nbtree.c:2282-2467 | an index without ignorable pages on which a child call never ends |
| NbtreeParent.ChildBetweenSeparators | bmks/postgres/contrib/amcheck/verify_nbtree.c:2345-2450 | all keys of an accepted child lie between the parent keys around its downlink |
| NbtreeCheck.Checker.TargetPageCheck | bmks/postgres/contrib/amcheck/verify_nbtree.c:1366-1936 | passing means items in order, children bounded from below, and one accepted child call an item; otherwise a check of an item or a child call raises an error, or runs for ever |
| NbtreeCheck.Checker.ChildCheck | bmks/postgres/contrib/amcheck/verify_nbtree.c:2483-2633 | passing means that the child is reached, not deleted, and above the downlink's key throughout; otherwise one of these fails, or the call runs for ever |
| NbtreeCheck.Checker.CheckLevel | bmks/postgres/contrib/amcheck/verify_nbtree.c:749-974 | accepted: walk, links, order and child checks hold; error: the walk came to a page whose checks raise one; endless: it came to a page whose checks run for ever, or the walk itself passes any number of pages |
| NbtreeCheck.Checker.CheckEveryLevel | bmks/postgres/contrib/amcheck/verify_nbtree.c:635-659 | passing means acceptance of every level, each starting where the one above points, down to the last; otherwise the levels so far are accepted and the next one raises an error or never ends |
| NbtreeWalk.InternalLevelConnected | bmks/postgres/contrib/amcheck/verify_nbtree.c:749-974 | an accepted internal level of live pages is connected to its children if and only if no downlink is P_NONE or leads to a page with right link 0xffffffff |
| NbtreeWalk.IndexConnected | bmks/postgres/contrib/amcheck/verify_nbtree.c:635-659 | in an accepted index every internal level of live pages that has a level below is connected to it if and only if no downlink is P_NONE |
| NbtreeWalk.NeverEndsGoesRound | bmks/postgres/contrib/amcheck/verify_nbtree.c:776-961 | a level walk that never ends goes round in one of the two ways of RepeatsExactly |
| NbtreeWalk.RootCanGoRound | bmks/postgres/contrib/amcheck/verify_nbtree.c:776-961 | an index on which the walk of the root level never ends |
| NbtreeWalk.ChildCallCanHang | bmks/postgres/contrib/amcheck/verify_nbtree.c:776-961 | an index without ignorable pages on which the check of the root level never ends |
| NbtreeWalk.AcceptedEnds | bmks/postgres/contrib/amcheck/verify_nbtree.c:776-961 | an accepted level is one whose walk ends |
| NbtreeWalk.AcceptedLive | bmks/postgres/contrib/amcheck/verify_nbtree.c:652-656 | an accepted level has a live page, so the error for a level without valid pages is not reached |
| NbtreeWalk.LeafLevelOrdered | bmks/postgres/contrib/amcheck/verify_nbtree.c:749-974 | an accepted leaf level of live non-empty pages is strictly increasing, so no (key, TID) occurs twice |
| CubeBox.UnionV0 | bmks/postgres/contrib/cube/cube.c:747-805 | the least cube enclosing both under zero extension, for any dimensions and corner order |
| CubeBox.UnionLeast | bmks/postgres/contrib/cube/cube.c:747-805 | whatever encloses both encloses the union |
| CubeBox.Inter | bmks/postgres/contrib/cube/cube.c:822-895 | the corners of the intersection, also where the cubes are apart |
| CubeBox.ContainsV0 | bmks/postgres/contrib/cube/cube.c:1123-1159 | containment in the dimensions of the contained cube, missing ones zero |
| CubeBox.OverlapV0 | bmks/postgres/contrib/cube/cube.c:1193-1229 | overlap in every dimension under zero extension |
| CubeBox.CmpV0 | bmks/postgres/contrib/cube/cube.c:936-1014 | the sign says which cube is above the other by the first difference among common lower bounds, common upper bounds and the bounds in extra dimensions, then by dimension; zero if and only if they are the same cube |
| CubeBox.AboveAsymmetric | bmks/postgres/contrib/cube/cube.c:936-1014 | of two cubes at most one is above the other |
| CubeBox.AboveTransitive | bmks/postgres/contrib/cube/cube.c:936-1014 | among cubes of one dimension the comparison is transitive |
| CubeGist.Consistent | bmks/postgres/contrib/cube/cube.c:390-417 | computes the leaf and the inner test of each strategy |
| CubeGist.EnclosingKeyEntered | bmks/postgres/contrib/cube/cube.c:707-732 | a key enclosing a matching leaf is entered, for leaves and queries of any dimensions |
| CubeGist.ContainedByExact | bmks/postgres/contrib/cube/cube.c:724-727 | for contained-by this holds for all keys if and only if the query is around zero in the dimensions the leaf lacks |
| CubeGist.ContainedByCanMiss | bmks/postgres/contrib/cube/cube.c:724-727 | a contained-by match that no search reaches |
| CubeGist.GUnion | bmks/postgres/contrib/cube/cube.c:424-449 | the key of a page is the least cube that encloses all its entries |
| CubeGist.KeyEncloses | bmks/postgres/contrib/cube/cube.c:424-449 | every key of a tree encloses every cube below it |
| CubeGist.SearchExact | bmks/postgres/contrib/cube/cube.c:707-732 | a search finds exactly the matching cubes |
| CubeSplit.PickSeeds | bmks/postgres/contrib/cube/cube.c:546-578 | the seeds waste most of all pairs, the last entry aside |
| CubeSplit.Choose | bmks/postgres/contrib/cube/cube.c:626-647 | an entry goes where it enlarges the cube less, right on a tie |
| CubeSplit.PickSplit | bmks/postgres/contrib/cube/cube.c:510-655 | every offset on exactly one side, sides non-empty and ascending, cubes enclosing their entries, all writes inside the arrays; the seeds are the most wasteful pair, and each other entry in turn goes to the side whose cube it enlarges less |
| CubeDistance.Distance1DIsGap | bmks/postgres/contrib/cube/cube.c:1502-1515 | the one-dimensional distance is the gap, in either order and against zero |
| CubeDistance.ComputeDistance | bmks/postgres/contrib/cube/cube.c:1252-1395 | the three loops compute the metric over all dimensions of either cube |
| CubeDistance.DistanceLowerBound | bmks/postgres/contrib/cube/cube.c:1397-1500 | an inner key is never farther than a cube it encloses, for all three metrics and any dimensions |
| CubeDistance.TreeLowerBound | bmks/postgres/contrib/cube/cube.c:1397-1500 | so in every tree, from any page to any cube below it |
| CubeDistance.CoordMeans | bmks/postgres/contrib/cube/cube.c:1643-1699 | a coordinate number stands for a bound of a dimension, zero if missing, negated if negative |
| CubeDistance.LeafCoord | bmks/postgres/contrib/cube/cube.c:1402-1469 | on a leaf the ordering value is the coordinate |
| CubeDistance.CoordLowerBound | bmks/postgres/contrib/cube/cube.c:1402-1469 | on an inner key it is a lower bound for every enclosed cube, also negated and for missing dimensions |
| PageTable.Machine.Translate | bmks/pagewalk_coherence/paging.cc:132-174 | the level loop computes the walk, including early stop, large pages, missing pages and non-canonical addresses |
| PageTable.Machine.ChangePte | bmks/pagewalk_coherence/paging.cc:176-188 | exactly one word changes, and the old entry is returned |
| PageTable.WindowSuffices | bmks/pagewalk_coherence/paging.cc:309-311 | the mapped tables contain every entry of the buffer for any alignment, and all are needed for some |
| PageWindow.BLeafIsLeaf | bmks/pagewalk_coherence/paging.cc:384-393 | the table word for page k is that page's last-level entry |
| PageWindow.WindowReaches | bmks/pagewalk_coherence/paging.cc:384-393 | through the remapped window p_pte[k] is that word |
| PageWindow.WellFormedTree | bmks/pagewalk_coherence/paging.cc:376-393 | memory with given entries for a buffer of one page and its window is a tree of the kind that a session assumes |
| PageWindow.SetUp | bmks/pagewalk_coherence/paging.cc:383-387 | the window shows the buffer's tables; old entries kept, nothing else changed |
| PageWindow.BackUp | bmks/pagewalk_coherence/paging.cc:401-404 | the backup holds the original entries |
| PageWindow.RestoreBuffer | bmks/pagewalk_coherence/paging.cc:847-850 | the buffer's entries are as at the start |
| PageWindow.Session | bmks/pagewalk_coherence/paging.cc:383-855 | after set-up, backup, any stores through p_pte[0..ASIZE) and clean-up, physical memory is as it was |
| Archive.Fill | bmks/postgres/contrib/basic_archive/basic_archive.c:350-378 | a full buffer or the rest of the file, for every pattern of short reads; an error exactly at the first read that fails |
| Archive.CompareFiles | bmks/postgres/contrib/basic_archive/basic_archive.c:322-396 | true if and only if the contents are equal; no answer if and only if one of the reads made fails |
| Archive.ArchiveSafe | bmks/postgres/contrib/basic_archive/basic_archive.c:240-315 | in every run of attempts, errors and crashes the destination is absent or identical, "already exists" never occurs, and success means durable |
| Archive.ArchiveStays | bmks/postgres/contrib/basic_archive/basic_archive.c:240-315 | a durable archive file stays |
| HeapXid.WidenRecovers | bmks/postgres/contrib/amcheck/verify_heapam.c:1880-1917 | every 64-bit id in [next-2^31+1, next+2^31] with normal low half is recovered from it |
| HeapXid.WidenMeans | bmks/postgres/contrib/amcheck/verify_heapam.c:1880-1917 | and every normal 32-bit id is widened to the one such id, unless there is none; clamping happens in epoch 0 only |
| HeapXid.Context.GetXidStatus | bmks/postgres/contrib/amcheck/verify_heapam.c:1922-2049 | the cache is refreshed exactly when the id is outside the cached range, and then holds the true oldest id if that lies in the window; the answer is that of the true id against the cached range |
| HeapToast.CheckToastTuple | bmks/postgres/contrib/amcheck/verify_heapam.c:1457-1541 | silent if and only if the chunk is the expected one, well formed and of the expected size |
| HeapToast.CheckToastedAttribute | bmks/postgres/contrib/amcheck/verify_heapam.c:1763-1814 | silent if and only if the chunks are numbered 0 to the last in order and full but for the last |
| HeapToast.SizesAddUp | bmks/postgres/contrib/amcheck/verify_heapam.c:1457-1541 | silence implies that the sizes add up to extsize |
| HeapToast.ZeroSizeWraps | bmks/postgres/contrib/amcheck/verify_heapam.c:1463-1463 | a size of zero wraps to two million chunks |

## Left out

- WAL records, memory contexts, buffer pins, error texts and statistics other than the counts named above.
- Hash functions, operator classes, `_bt_compare` and the visibility callback of a bulk delete: their results are parameters, or the given order on (key, heap TID).
- Bloom options parsing, cost estimation and `blvalidate`, which would only add easy members.
- Bloom block numbers, counters and tuple counts are unbounded; an index near 2^32 blocks is not modelled.
- BloomProtocol takes buffer locks as exclusive for the length of a step; that shared locks allow more overlap between readers changes no page.
- The order in which the free space map hands out blocks is not modelled; any block it names may come first.
- GbtVarKey.PickSplit: does not model the sort; any arrangement of the entries is admitted, and the result holds for each.
- btree_gist for text, bit and numeric, multibyte prefixes, and the penalty function.
- Nbtree: posting lists, uniqueness and heap checks, `_bt_search` from the root, non-readonly races, line pointer validation and tuple sizes; an item that is missing where the code reads one counts as an error.
- Cube: floating point is modelled by real numbers, without NaN, infinities and rounding; `cube_in`, enlargement, subsets and the penalty function are left out.
- CubeDistance.ComputeDistance: does not model the square root of the Euclidean distance, which changes no order.
- CubeDistance.CoordLowerBound: does not model the overflow of negating the coordinate -2^31.
- CubeBox.AboveTransitive: is about cubes of one dimension; of cubes of different dimensions only pairs are treated.
- PageWindow.Session: assumes a well-formed page-table tree whose last-level entries for the two buffers are distinct words, and does not model TLBs, accessed and dirty bits, or the timed loops.
- Archive: assumes a sole archiver, an unchanging source and atomic renames; path lengths and clock overflow are not modelled.
- HeapXid.Context.GetXidStatus: does not model the commit log lookup and its one-entry cache.
- The heap verifier's visibility rules, attribute checks and update chains.
- `runner/`, `scripts/`, `plots/` and the other benchmarks: command lines, log scraping and timing loops.
