# Verified model of the FAIM engine's deterministic core

A Dafny model of the algorithms and small protocols that `faim_native` implements itself, each
proved against an independent specification. `dafny verify dfyconfig.toml` checks all of it.

## What is modelled

| Files | Component | Main result |
|---|---|---|
| `Vectors`, `VPTree`, `VPBalance`, `VPSearch` | exact nearest-neighbour search | branch-and-bound search returns the brute-force list, ties included |
| `PathSearch` | bounded BFS path explanation | true shortest paths, found if and only if one fits the hop limit |
| `UnionFind`, `SemanticMemory` | union-find bundling | the first connected components, whatever the order of pairs |
| `Text`, `Expansions`, `ExpansionLaws`, `Arrangement` | merging of weighted expansions | capped merging composes; exact condition for sources and origins |
| `InvertedIndex`, `Wand`, `GraphStats` | sparse index, shortlist and term statistics | both equal a full scan, with the exact range of k |
| `Metrics` | retrieval metrics | ranges, exact conditions for 1, promotion monotonicity |
| `Locks` | Redis lease with file fallback | what each backend excludes, and what the manager does not |
| `RateLimit` | fixed-window limiter | 2L - 1 per sliding window, and no better |
| `Phrases` | greedy phrase matching | no disjoint choice is larger |
| `MergeForest` | antisymmetric merges | a forest ordered by (hash, id) |
| `Scheduler` | self-evolve scheduling | one active job per graph in every run; what a whole scan does |
| `Ingest` | dedup, write, record, rollback | records and atoms stay together exactly under stated faults |
| `CacheKey`, `QueryCache` | version-keyed query cache | no answer is older than the version its query read, under any interleaving |
| `Ordering`, `Ranking`, `Options` | shared sorting, slicing and result types | |

Code that computes a value is a function with lemmas; code that loops or updates state is a method
or a class proved against such a function. Databases, Redis and lock files are values changed by
atomic steps, and concurrent clients are interleavings of those steps.

Conventions. Node ids and terms are numbered by their place in string order, which is all the
source uses of them. Floats are reals and `math.isclose` is equality. `sqrt` is any function with
`sqrt(x)^2 = x` and `sqrt(x) >= 0`; the DCG discount is any positive decreasing function; hashes,
similarities, recall and scorers are parameters. Python slices keep their reading of a negative
bound, because `top_k` and `exact_top_k` pass k straight to a slice.

## Where the code and its documentation disagree

The model follows the code.

- `exact_top_k` with a negative k slices from the end, `search_vptree` returns nothing
  (`VPSearch.SearchVPTree` gives the exact condition for agreement). A build drops rows that
  repeat an id once one of them is a pivot (`VPSearch.HeldRankIffAllHeld`).
- `LockManager.lock` is described as a lock, but any failure to acquire Redis, contention included,
  falls back to the file (`Locks.ContentionAdmitsTwo`), and a release that deletes late removes a
  successor's key (`Locks.LateReleaseDeletesForeignKey`, `Locks.OwnDeletionsIffNoLeases`).
- The limiter admits up to 2L - 1 calls in a sliding window (`RateLimit.WindowBoundIsReached`,
  `RateLimit.SlidingLimitIff`), and a lost `expire` closes the key for good
  (`RateLimit.LostExpiryNeverResets`, `RateLimit.RunReopensIff`).
- Merging in two stages drops origins that normalise to nothing
  (`ExpansionLaws.UncappedMergeComposes`, `ExpansionLaws.BlankOriginIsLost`).
- AP, nDCG and recall exceed 1 for some relevant documents exactly on rankings with repeats
  (`Metrics.AveragePrecisionIsScoreIffDistinct` and its siblings), and precision is negative for a
  negative k with hits (`Metrics.PrecisionRange`, `Metrics.NegativeCutBreaksPrecision`).
- An event emission that fails between the write and the record rolls the atoms back but the record
  is still committed, on every index path (`Ingest.LostIff`, `Ingest.LostAtomsStayLost`).
- The idf bound leaves [0, 1] exactly when a document frequency exceeds 1.1 times the document count
  (`Wand.IdfInUnitInterval`, `Wand.InflatedFrequencyBreaksIdf`); the statistics the repository keeps
  never do that (`GraphStats.RepositoryIdfInUnitInterval`).
- A colon in a tenant, graph, hash or profile makes cache keys collide, always
  (`CacheKey.KeyUniqueIffClean`).

## Model

| member | source | states |
|---|---|---|
| Vectors.TriangleInequality | faim_native/index/deterministic_ann.py:76-77 | The Euclidean distance the tree prunes by obeys the triangle inequality (proved from Cauchy-Schwarz, not assumed) |
| Vectors.NormalizeIsUnitOrZero | faim_native/index/deterministic_ann.py:59-63 | A normalised vector has squared length exactly 1 or exactly 0 |
| Vectors.NormalizeByIndex | faim_native/index/deterministic_ann.py:59-63 | Above a length of 1e-12 every component of the normalised vector times the length is the given component; otherwise every component is 0 |
| Vectors.CosineMeaning | faim_native/index/deterministic_ann.py:17-23 | The cosine is the sum of a[i]*b[i] over the product of the lengths, and 0 when a length is at most 1e-12 |
| Vectors.CosineOfNormalized | faim_native/index/deterministic_ann.py:17-23 | The cosine of normalised vectors is the cosine of the raw ones |
| Vectors.SquaredDistanceByIndex | faim_native/index/deterministic_ann.py:76-77 | The squared distance sums the squares of the differences |
| Vectors.RankDominates | faim_native/index/deterministic_ann.py:76-82 | The ranking distance is never below the pruning distance, zero vectors included, and equals it on unit vectors |
| Vectors.RankRoundTrip | faim_native/index/deterministic_ann.py:80-86 | Turning a cosine into a distance and back gives the cosine |
| Vectors.RankBeyond | faim_native/index/deterministic_ann.py:80-82 | Similarities past the ends of [-1, 1] are ranked as the ends |
| Vectors.RankAntitone | faim_native/index/deterministic_ann.py:85-86 | A smaller distance is a strictly larger reported similarity, and equal distances report equal similarities |
| VPTree.BuildHolds | faim_native/index/deterministic_ann.py:89-110 | For any input the built tree is separated (left distances at most the threshold, right distances above it at every node), holds only points given, none twice, and some point for every id |
| VPTree.BuildKeepsPoints | faim_native/index/deterministic_ann.py:89-110 | When rows that repeat an id repeat the point, the tree holds exactly the points given, and with distinct ids it is a permutation of the input |
| VPTree.BuildIgnoresOrder | faim_native/index/deterministic_ann.py:89-110 | The same points in any order build the same tree, when rows that repeat an id repeat the point |
| VPTree.PivotIsLeast | faim_native/index/deterministic_ann.py:55-56 | The pivot has the smallest id |
| VPBalance.MedianHalves | faim_native/index/deterministic_ann.py:45-52 | At most half of any list of values lies strictly above its median |
| VPBalance.MedianHalvesBelow | faim_native/index/deterministic_ann.py:45-52 | At most half of the values lies strictly below the median |
| VPBalance.MedianMirrors | faim_native/index/deterministic_ann.py:45-52 | Negating all values negates the median, so for an even count it is the exact middle |
| VPBalance.CutSizes | faim_native/index/deterministic_ann.py:97-103 | A cut drops the pivot and sends at most half of what remains to the right |
| VPBalance.RightTurnsAreLogarithmic | faim_native/index/deterministic_ann.py:89-110 | Any root-to-leaf path over n points takes at most log2(n) right turns, repeated ids or not |
| VPSearch.Searcher.constructor | faim_native/index/deterministic_ann.py:138-139 | An empty best list for a positive k |
| VPSearch.Worst | faim_native/index/deterministic_ann.py:140-146 | The worst kept candidate is a member that no member is behind |
| VPSearch.Searcher.Push | faim_native/index/deterministic_ann.py:148-164 | After a push the best list still holds the k nearest of everything met, the new candidate included |
| VPSearch.Searcher.Search | faim_native/index/deterministic_ann.py:166-185 | Branch and bound accounts for every candidate of the subtree: each is kept, displaced, or pruned while behind all k that are kept |
| VPSearch.PruneRight | faim_native/index/deterministic_ann.py:175-180 | When the right side is skipped, every candidate on it is strictly farther than the current k-th best |
| VPSearch.PruneLeft | faim_native/index/deterministic_ann.py:181-185 | The same for a skipped left side |
| VPSearch.NearestIsExact | faim_native/index/deterministic_ann.py:113-196 | A best list that holds the k nearest of all points reports the brute-force ranking's first k, ties by id included |
| Ranking.TopMeaning | faim_native/index/deterministic_ann.py:127-128 | A sorted and cut ranking has as many results as the cut and the list allow, higher scores first with ties by id, and nothing left out belongs ahead of a result |
| VPSearch.ExactTopKMeaning | faim_native/index/deterministic_ann.py:113-128 | Brute force returns the k best points: each result is one point's cosine with the raw query, in order, and every other point is behind all of them |
| VPSearch.HeldRankIffAllHeld | faim_native/index/deterministic_ann.py:113-196 | The points the tree holds rank like all points at every cut if and only if the build dropped none |
| VPSearch.RepeatedIdIsDropped | faim_native/index/deterministic_ann.py:97-98 | Two rows with one id: the tree holds one of them |
| VPSearch.SearchVPTree | faim_native/index/deterministic_ann.py:131-196 | Searching a built tree returns the k best points by cosine, ties by id, for every k > 0 and distinct ids: exactly the brute-force list; over the points the tree holds when ids repeat; for other k it agrees with brute force if and only if k is 0 or the brute-force slice is empty |
| VPSearch.NegativeCutDiffers | faim_native/index/deterministic_ann.py:113-135 | Two points and k = -1: brute force keeps one, where the search returns nothing |
| PathSearch.Scope.Incident | faim_native/api/fig_graph_core.py:189-216 | The query returns exactly the usable edges that touch the node |
| PathSearch.OtherNode | faim_native/api/fig_graph_core.py:219-224 | The other end of an edge, and none when the node is not on the edge |
| PathSearch.Reconstruct | faim_native/api/fig_graph_core.py:254-267 | Back-pointers lead from goal to start along usable edges in as many steps as the goal's level |
| PathSearch.ExpandNode | faim_native/api/fig_graph_core.py:239-269 | Expanding a node keeps levels, back-pointers and what is settled, or discovers the goal at a level no walk undercuts |
| PathSearch.UndiscoveredIsFar | faim_native/api/fig_graph_core.py:239-271 | While the goal is undiscovered every walk to it is longer than the levels expanded so far |
| PathSearch.ShortestPathUndirected | faim_native/api/fig_graph_core.py:227-272 | A returned path is a walk over usable edges from start to goal within the hop limit and no walk is shorter; none is returned if and only if every walk is longer than the limit; the loop terminates |
| UnionFind.AddPair | faim_native/domain/semantic_memory.py:74-82 | Adding a pair connects exactly what was connected or meets through it |
| UnionFind.CompressKeepsRoots | faim_native/domain/semantic_memory.py:68-72 | Path compression moves no root |
| UnionFind.LinkMovesRoots | faim_native/domain/semantic_memory.py:74-82 | Linking moves exactly the larger root's class |
| UnionFind.RootIsLeast | faim_native/domain/semantic_memory.py:64-82 | The root of a term is the smallest term it is connected to |
| UnionFind.RootsIgnoreOrder | faim_native/domain/semantic_memory.py:64-82 | Roots are determined by the set of united pairs: any order and any finds give the same roots |
| UnionFind.UnionFind.constructor | faim_native/domain/semantic_memory.py:65-66 | Every term is its own root |
| UnionFind.UnionFind.Find | faim_native/domain/semantic_memory.py:68-72 | Returns the root; afterwards every term on the path points at the root, every other term's parent and every root are as before; terminates |
| UnionFind.UnionFind.Union | faim_native/domain/semantic_memory.py:74-82 | Afterwards two terms share a root if and only if the united pairs, the new one included, connect them |
| SemanticMemory.UniteSimilar | faim_native/domain/semantic_memory.py:274-289 | The double loop unites exactly the pairs scored at or above the threshold |
| SemanticMemory.UnitedIff | faim_native/domain/semantic_memory.py:274-289 | Two ranked terms are united directly if and only if they were mined as aliases, at whatever score, or were not and have a similarity of at least 0.72 |
| SemanticMemory.OnlyRankedLinked | faim_native/domain/semantic_memory.py:274-289 | Only distinct ranked terms are ever united |
| SemanticMemory.AliasesShareAGroup | faim_native/domain/semantic_memory.py:266-299 | Ranked terms mined as aliases are always in one group |
| SemanticMemory.BundlesDisjoint | faim_native/domain/semantic_memory.py:291-299 | Distinct groups share no term |
| SemanticMemory.BundlesUnique | faim_native/domain/semantic_memory.py:274-299 | Terms and united pairs determine the list of groups |
| SemanticMemory.LinkedIffSimilar | faim_native/domain/semantic_memory.py:274-289 | With a symmetric similarity two terms are united directly, whichever comes first, if and only if both are ranked, distinct and similar |
| SemanticMemory.SelectionIgnoresOrder | faim_native/domain/semantic_memory.py:274-299 | With a symmetric similarity every order of the ranked terms, hence of the pairs, selects the same groups |
| SemanticMemory.SelectGroups | faim_native/domain/semantic_memory.py:274-299 | The groups are the first max_bundles of all components with two or more terms, each whole and sorted, by smallest term |
| Text.NormalizeIdempotent | faim_native/lexical/synonym_expander.py:36-37 | Normalising a normalised term changes nothing |
| Text.BlankMeaning | faim_native/lexical/synonym_expander.py:36-37 | The characters that separate words, by code |
| Text.RunsAreWords | faim_native/lexical/synonym_expander.py:36-37 | Splitting finds exactly the maximal runs of non-blank characters, in order |
| Text.WordsAreRuns | faim_native/lexical/synonym_expander.py:36-37 | Every string splits into such runs with blanks before, between and after |
| Text.NormalizeMeaning | faim_native/lexical/synonym_expander.py:36-37 | The normal form is the maximal runs in order, codes 65 to 90 moved up by 32 and all others kept, with single blanks between |
| Text.NormalizeAlikeIff | faim_native/lexical/synonym_expander.py:36-37 | Two strings normalise alike if and only if their runs are equal but for the case of ASCII letters |
| Text.LexLeMeaning | faim_native/lexical/synonym_expander.py:109 | Strings are ordered by their first difference, a prefix first |
| Expansions.MergedMeaning | faim_native/lexical/synonym_expander.py:80-98 | A term is merged when it is not blank and some row normalises to it; its weight is the greatest clamped weight, its sources and origins the unions over those rows |
| Expansions.ClampMeaning | faim_native/lexical/synonym_expander.py:85 | Weights are cut to [0, 1] |
| Expansions.CleanMeaning | faim_native/lexical/synonym_expander.py:91-98 | The origins kept are the normal forms of those that are not empty |
| Expansions.OutputMeaning | faim_native/lexical/synonym_expander.py:100-112 | The output holds the merged entries, as many as the cap allows, heaviest first with ties by term, and what is cut comes behind |
| Expansions.TwoRowsMergeIff | faim_native/lexical/synonym_expander.py:80-112 | Two rows with terms that are not blank come out as one if and only if the terms have the same runs but for ASCII case |
| Expansions.InsertionOrderForgotten | faim_native/lexical/synonym_expander.py:100-109 | The sorted output does not depend on the dictionary's insertion order |
| Expansions.MergeWeightedExpansions | faim_native/lexical/synonym_expander.py:74-112 | The source's loop, sort and cut compute the set-based specification |
| ExpansionLaws.MergeConcat | faim_native/lexical/synonym_expander.py:80-98 | Merging two lists at once is merging their merges term by term |
| ExpansionLaws.CappedMergeComposes | faim_native/lexical/synonym_expander.py:74-112 | Merging A under cap M, then adding B under a cap N no larger, ranks the same terms with the same weights in the same order as one merge of A and B under N |
| ExpansionLaws.UncappedMergeComposes | faim_native/lexical/synonym_expander.py:74-112 | Uncapped, two stages equal one in sources and origins as well if and only if every blank origin A has for a term B has for it too |
| ExpansionLaws.BlankOriginIsLost | faim_native/lexical/synonym_expander.py:85-98 | A row with the origin ' ' whose origin a second stage drops |
| InvertedIndex.Build | faim_native/index/inverted_index.py:44-110 | Every posting list is exactly what the rows post for the term, repeats included, sorted by id; documents are the last representation per id |
| InvertedIndex.PostedByField | faim_native/index/inverted_index.py:84-108 | Words, phrases and skips are posted with their stored counts, entity, time and layout tokens with 1, each under its own channel |
| InvertedIndex.MatchingNodeIds | faim_native/index/inverted_index.py:119-140 | The matched ids are exactly the documents some query term posts, ascending, each once |
| InvertedIndex.MatchesAreShared | faim_native/index/inverted_index.py:119-140 | A document matches if and only if one of its rows shares a term with the query in one channel |
| InvertedIndex.SharesByField | faim_native/index/inverted_index.py:119-140 | Query and document share a term if and only if they have a word, phrase, skip, entity, time or layout entry in common |
| InvertedIndex.MatchesByField | faim_native/index/inverted_index.py:119-140 | A document matches if and only if one of its rows has such an entry in common with the query |
| InvertedIndex.ScanMeaning | faim_native/index/inverted_index.py:119-155 | The scores are exactly those of the last rows of the documents the query touches |
| InvertedIndex.FullScanOfDistinct | faim_native/index/inverted_index.py:119-155 | With distinct ids the full scan is exactly the scored rows that share a term |
| InvertedIndex.ScoreMatching | faim_native/index/inverted_index.py:142-155 | The scored list is a permutation of the full scan, rows with repeated ids included |
| InvertedIndex.TopK | faim_native/index/inverted_index.py:157-165 | For every scorer and k the ranking is the sorted full scan, sliced; for k >= 0 it is the k best documents that have an entry in common with the query, ties by id, and nothing left out belongs ahead |
| Wand.IdfInUnitInterval | faim_native/index/wand.py:43-51 | The idf bound lies in [0, 1] if and only if the document frequency is at most 1.1 times the document count |
| Wand.CountsMeaning | faim_native/index/wand.py:41-49 | Missing statistics count as one document without the term, and negative ones as none |
| Wand.IdfMeaning | faim_native/index/wand.py:51 | The idf bound is 1 for a term in at most a tenth of the documents and 0.1 plus the share of documents without it beyond that |
| Wand.MaxTfMeaning | faim_native/index/wand.py:48 | The largest frequency posted |
| Wand.BoundMeaning | faim_native/index/wand.py:48-53 | The bound of a posted term is its idf, scaled by the largest frequency only when that is below 1, cut at 1 and rounded |
| Wand.InflatedFrequencyBreaksIdf | faim_native/index/wand.py:43-51 | Statistics with a term in two documents out of one make it negative |
| GraphStats.CountTerms | faim_native/store/pg/repos/representation_repo.py:355-358 | One more document is counted for each of the terms and no other |
| GraphStats.Statistician.Add | faim_native/store/pg/repos/representation_repo.py:317-361 | After an insertion every channel's row counts the documents, and the documents with each term, exactly |
| GraphStats.Statistician.Rebuild | faim_native/store/pg/repos/representation_repo.py:265-315 | A rebuild leaves exactly the counts of the documents given |
| GraphStats.RepositoryIdfInUnitInterval | faim_native/index/wand.py:42-51 | With the statistics the repository keeps, document frequencies never exceed the document count and every idf bound lies in [0.1, 1] |
| Wand.EstimateTermUpperBounds | faim_native/index/wand.py:33-54 | One bound for each query term that has postings, once, and no other, in channel and then term order |
| Wand.BoundKeepsOrder | faim_native/index/wand.py:68-83 | Adding a common bound that is not negative and clamping orders as the clamped scores do; with scores of at most 1 for any budget |
| Wand.NoBoundsNoMatches | faim_native/index/wand.py:57-86 | No bounds means no matching document, so the early return loses nothing |
| Wand.BlockMaxWandShortlist | faim_native/index/wand.py:57-86 | With bounds that are not negative, or scores of at most 1, the shortlist is the ranking by clamped score cut at max_candidates and then at k; with scores of at most 1 it equals the ranking cut at k if and only if k is at most max_candidates or the matches run out first |
| Metrics.AveragePrecision | faim_native/benchmarks/metrics.py:31-43 | The loop computes precision summed over relevant ranks, divided by the number of relevant documents |
| Metrics.ReciprocalRank | faim_native/benchmarks/metrics.py:46-51 | The early-return loop computes the reciprocal of the first relevant rank |
| Metrics.FirstRank | faim_native/benchmarks/metrics.py:46-51 | The first relevant rank, and 0 when there is none |
| Metrics.ReciprocalRankMeaning | faim_native/benchmarks/metrics.py:46-51 | With the first relevant document at place i the reciprocal rank times i + 1 is 1, and without one it is 0 |
| Metrics.AveragePrecisionMeaning | faim_native/benchmarks/metrics.py:31-43 | AP times the number of relevant documents sums, over relevant places, the number of hits so far over the rank |
| Metrics.NdcgMeaning | faim_native/benchmarks/metrics.py:63-71 | nDCG times the ideal gain of as many documents as are relevant and fit is DCG |
| Metrics.RecallAndPrecisionMeaning | faim_native/benchmarks/metrics.py:15-28 | Recall times the number of relevant documents, and precision times k, is the number of hits in the slice |
| Metrics.DcgAtK | faim_native/benchmarks/metrics.py:54-60 | The loop computes the discounted gain of the slice, for any k |
| Metrics.DcgMeaning | faim_native/benchmarks/metrics.py:54-60 | DCG sums the discounts of the relevant places of the slice, for any k |
| Metrics.AveragePrecisionRange | faim_native/benchmarks/metrics.py:31-43 | Without repeats AP lies in [0, 1] and is 1 if and only if a non-empty relevant set fills exactly the first positions |
| Metrics.AveragePrecisionIsScoreIffDistinct | faim_native/benchmarks/metrics.py:31-43 | AP is at most 1 for every set of relevant documents if and only if the ranking has no repeats |
| Metrics.RepeatsBreakAveragePrecision | faim_native/benchmarks/metrics.py:31-43 | A ranking with a repeat whose AP is 2 |
| Metrics.NdcgRange | faim_native/benchmarks/metrics.py:54-71 | Without repeats DCG is at most the ideal, nDCG lies in [0, 1], and is 1 if and only if as many relevant documents as fit fill the first positions, for every positive decreasing discount |
| Metrics.NdcgIsScoreIffDistinct | faim_native/benchmarks/metrics.py:54-71 | nDCG is at most 1 for every relevant set and cut if and only if the ranking has no repeats |
| Metrics.RecallRange | faim_native/benchmarks/metrics.py:15-20 | Without repeats recall lies in [0, 1] and is 1 if and only if there are relevant documents and the slice holds them all |
| Metrics.RecallIsScoreIffDistinct | faim_native/benchmarks/metrics.py:15-20 | Recall is at most 1 for every relevant set and cut if and only if the ranking has no repeats |
| Metrics.PrecisionRange | faim_native/benchmarks/metrics.py:23-28 | Precision lies in [0, 1] if and only if k is not negative or the slice has no hits |
| Metrics.NegativeCutBreaksPrecision | faim_native/benchmarks/metrics.py:23-28 | A ranking with k = -1 whose precision is -1 |
| Metrics.PromotionRaisesAP | faim_native/benchmarks/metrics.py:31-43 | Moving a relevant document one place up past an irrelevant one strictly raises AP |
| Metrics.PromotionNeverLowersDCG | faim_native/benchmarks/metrics.py:54-60 | The same move never lowers DCG at any cut, and raises it if and only if the cut falls behind the upper place |
| Metrics.PromotionNeverLowersRR | faim_native/benchmarks/metrics.py:46-51 | The same move never lowers the reciprocal rank |
| Locks.FileExclusive | faim_native/cache/locks.py:178-220 | In every interleaving at most one client is inside through the lock file |
| Locks.RedisExclusive | faim_native/cache/locks.py:72-133 | While releases finish within their leases at most one client is inside through Redis, and the live key is its own |
| Locks.DeletesOnlyOwnKey | faim_native/cache/locks.py:106-133 | Under the same condition a release deletes only its own key |
| Locks.AtomicReleaseIsSafe | faim_native/cache/locks.py:106-133 | If nothing comes between the get and the delete, no deadline is needed: a release deletes only its own key, and at most one client is within its lease |
| Locks.AtMostTwoBodies | faim_native/cache/locks.py:257-306 | Under timely releases at most two bodies run for a key |
| Locks.AtMostOneBodyWithoutRedis | faim_native/cache/locks.py:257-306 | With Redis unreachable throughout at most one body runs |
| Locks.LateReleaseDeletesForeignKey | faim_native/cache/locks.py:106-133 | A run after which a late release deletes client 2's live key, whereupon client 3 acquires and two clients are inside within their leases |
| Locks.OwnDeletionsIffNoLeases | faim_native/cache/locks.py:72-133 | No run lets a release delete another client's live key if and only if no attempt is ever made or leases have no length |
| Locks.ContentionAdmitsTwo | faim_native/cache/locks.py:280-300 | A timely run in which contention on a healthy Redis lets a second body in through the file |
| Locks.MutualExclusionIffNoAttempts | faim_native/cache/locks.py:257-306 | Over timely runs bodies exclude each other if and only if the manager is configured to make no attempt at all |
| Locks.RedisSetMeaning | faim_native/cache/locks.py:81-98 | An attempt takes a key that is absent or expired for one lease from now, and otherwise costs an attempt |
| Locks.FileTryMeaning | faim_native/cache/locks.py:183-204 | An attempt takes a free file, and otherwise costs an attempt |
| Locks.FallbackMeaning | faim_native/cache/locks.py:280-304 | Redis with all attempts, then the file with all attempts, then the body runs unlocked |
| Locks.FileReleaseFrees | faim_native/cache/locks.py:206-217 | After a release the next to try the file is inside |
| Locks.RedisReleaseFrees | faim_native/cache/locks.py:119-127 | After a release that deletes the key the next to try Redis is inside |
| Locks.RedisGetMeaning | faim_native/cache/locks.py:119-128 | A release goes on to delete if and only if the live key is its own |
| Locks.FailedFileReleaseAbandons | faim_native/cache/locks.py:218-220 | A file release that fails leaves the file locked by a client that has left |
| Locks.FailedFileReleaseLocksForGood | faim_native/cache/locks.py:178-220 | In no later run is anyone inside through such a file |
| RateLimit.RateLimiter.CheckRateLimit | faim_native/cache/redis_client.py:154-178 | The increment, expiry and comparison step the counter and decide as specified, outages and a lost expiry included |
| RateLimit.RateLimiter.GetRateLimitRemaining | faim_native/cache/redis_client.py:180-194 | The reported remainder is the limit less the live count, never negative, and the whole limit during an outage |
| RateLimit.CallMeaning | faim_native/cache/redis_client.py:165-175 | A call at an absent or expired key opens a lifetime of one window, any other counts, and passes while the count is within the limit |
| RateLimit.OutageMeaning | faim_native/cache/redis_client.py:161-163 | During an outage every call passes and nothing is counted |
| RateLimit.LostExpiryMeaning | faim_native/cache/redis_client.py:171-178 | When the expiry fails after the first increment the call passes and the key has no end |
| RateLimit.WindowBound | faim_native/cache/redis_client.py:154-178 | In every timed run every half-open interval of one window's length holds at most 2L - 1 accepted calls |
| RateLimit.WindowBoundIsReached | faim_native/cache/redis_client.py:154-178 | For every limit and window a run reaches 2L - 1 |
| RateLimit.SlidingLimitIff | faim_native/cache/redis_client.py:154-178 | Every sliding window keeps to the limit itself if and only if the limit is at most 1 |
| RateLimit.RemainingIsExact | faim_native/cache/redis_client.py:180-194 | Of the further calls in the current lifetime exactly the first `remaining` are accepted |
| RateLimit.LostExpiryNeverResets | faim_native/cache/redis_client.py:258-274 | When the expiry after the first increment is lost, the key accepts L calls in all and none ever after |
| RateLimit.UnexpiringIffLost | faim_native/cache/redis_client.py:165-178 | After any run the key is without an expiry if and only if some call incremented an absent key and failed to expire it |
| RateLimit.ReopensIff | faim_native/cache/redis_client.py:165-178 | From some time on a call is accepted, unless the key has no expiry and has counted up to the limit |
| RateLimit.RunReopensIff | faim_native/cache/redis_client.py:165-178 | After any run from a fresh key the limiter reopens if and only if no call lost the expiry or the count is still below the limit |
| Phrases.TableHasTwoTokens | faim_native/lexical/phrase_patterns.py:19-41 | Every pattern of the table has two tokens |
| Phrases.LocationsMeaning | faim_native/lexical/phrase_patterns.py:19-41 | The eight phrases of location |
| Phrases.EmploymentMeaning | faim_native/lexical/phrase_patterns.py:19-41 | The five phrases of employment |
| Phrases.OriginsAndFocusMeaning | faim_native/lexical/phrase_patterns.py:19-41 | The phrases of birth, founding and focus |
| Phrases.MatchMeaning | faim_native/lexical/phrase_patterns.py:53-65 | A match covers two tokens the table has, quotes them with a blank between and names the table's relation |
| Phrases.NoMatchMeaning | faim_native/lexical/phrase_patterns.py:54-57 | Two tokens the table lacks are no match |
| Phrases.GreedyIsDisjoint | faim_native/lexical/phrase_patterns.py:44-78 | The greedy choice consists of pattern matches, pairwise disjoint and in position order |
| Phrases.GreedyIsLargest | faim_native/lexical/phrase_patterns.py:44-78 | No disjoint choice of pattern matches is larger than the greedy one, from any position on |
| Phrases.FindMatches | faim_native/lexical/phrase_patterns.py:49-65 | The scan finds every match of its length once, by position |
| Phrases.DropOverlaps | faim_native/lexical/phrase_patterns.py:67-78 | The pass over occupied positions keeps exactly the greedy choice |
| Phrases.MatchPhrasePatterns | faim_native/lexical/phrase_patterns.py:44-78 | The matcher returns the greedy choice, and no disjoint choice is larger |
| MergeForest.SelectsTheSmaller | faim_native/core/antisym.py:89-118 | The winner is the strictly smaller by hash and then id, whichever way round the two are given |
| MergeForest.BeatsMeaning | faim_native/core/antisym.py:89-118 | Smaller means the hash is smaller at the first difference, or the hashes are equal and the id is smaller |
| MergeForest.CandidatesAreOpen | faim_native/core/engine_native.py:356-384 | Every candidate is another listed node, not yet merged away and at or above the threshold |
| MergeForest.CandidatesMeaning | faim_native/core/engine_native.py:356-384 | The candidates are the five closest listed nodes that stand, by similarity cut at 0 and then hash; one left out is behind five that are in |
| MergeForest.StepMergesBest | faim_native/core/engine_native.py:268-314 | A standing node merges if and only if some node is eligible, and then with the most similar one, the smaller hash first among equals |
| MergeForest.StepMeaning | faim_native/core/engine_native.py:268-314 | The same by similarity: a standing node merges with a closest node above the threshold if there is any, and the smaller by hash and id absorbs the other |
| MergeForest.WriteAtoms | faim_native/core/engine_native.py:268-314 | The scan performs these merges in order; no node is merged away twice, winners are strictly smaller and still standing, and `merges` equals the number of merged nodes and is at most the number written |
| MergeForest.WinnerChain | faim_native/core/engine_native.py:268-314 | Following winners, each node was absorbed by the next and is beaten by every later one, and the chain ends at a node that was not merged away |
| MergeForest.Survivor | faim_native/core/engine_native.py:268-314 | Following winners ends at a node that was not merged away, the start itself or one that beats it |
| Scheduler.ActiveJobFinds | faim_native/orchestration/self_evolve_scheduler.py:108-126 | A job is found if and only if the graph has a pending or running evolve job, and it is one |
| Scheduler.GateMeaning | faim_native/orchestration/self_evolve_scheduler.py:316-381 | The gates are open if and only if jobs are on and either evolution is on and the mode covers the source, or it is a storage upload with evolution off and invention after uploads on; and the reason of each refusal |
| Scheduler.TruncateMeaning | faim_native/orchestration/self_evolve_scheduler.py:431 | Elapsed seconds lose their fraction on both sides of zero |
| Scheduler.MissingRowsMeanNever | faim_native/orchestration/self_evolve_scheduler.py:387-398 | Without rows a graph is at version 0 and was never seen, evolved or enqueued |
| Scheduler.ReasonMeaning | faim_native/orchestration/self_evolve_scheduler.py:406-495 | Behind open gates the first failing condition of version delta, elapsed time and active job gives the reason |
| Scheduler.EnqueueMarksSeen | faim_native/orchestration/self_evolve_scheduler.py:387-395 | A call that passes the gates records the version it saw; one that does not writes nothing |
| Scheduler.EvaluationPredicts | faim_native/orchestration/self_evolve_scheduler.py:295-643 | A read-only evaluation gives the reason, version and delta the enqueue call will give, and enqueue adds a job if and only if it said due; nothing else of any graph changes but what was seen and enqueued |
| Scheduler.EnqueuedIffDue | faim_native/orchestration/self_evolve_scheduler.py:498-643 | A job is enqueued if and only if jobs are on, evolution is on with a mode that covers the source or it is a legacy storage upload, version delta and elapsed time reach their minimums, and the graph has no evolve job pending or running |
| Scheduler.NamedJobIsActive | faim_native/orchestration/self_evolve_scheduler.py:498-643 | Whenever a call names a job it is the graph's active evolve job and the one remembered as last enqueued |
| Scheduler.RunKeepsOneActive | faim_native/orchestration/self_evolve_scheduler.py:498-643 | No run of enqueue calls, failures, worker transitions and writes gives a graph two active evolve jobs |
| Scheduler.RunMovesForward | faim_native/store/pg/repos/self_evolution_state_repo.py:284-348 | Seen and evolved versions never go back in any run |
| Scheduler.EvolvedMeaning | faim_native/store/pg/repos/self_evolution_state_repo.py:325-348 | An evolution moves the evolved and seen versions up to its own and dates the graph |
| Scheduler.WorkerMeaning | faim_native/orchestration/jobs/job_store.py:41-188 | Claiming runs a job that is not finished, finishing ends it, and other jobs are appended |
| Scheduler.SelectDueGraphs | faim_native/store/pg/repos/self_evolution_state_repo.py:350-448 | The selection is exactly the qualifying rows, sorted by last evolution and then graph, cut at the limit |
| Scheduler.SelectsMeaning | faim_native/store/pg/repos/self_evolution_state_repo.py:404-424 | A row qualifies if and only if no evolve job is active, the version moved by at least 1 and the minimum, and it never evolved or did so at least the minimum and not in the future |
| Scheduler.SelectionMeaning | faim_native/store/pg/repos/self_evolution_state_repo.py:440-448 | The selected rows wait longest, ties by graph, as many as the limit allows, and none left out waits longer than one selected |
| Scheduler.DueListUnique | faim_native/store/pg/repos/self_evolution_state_repo.py:350-448 | The sorted selection does not depend on the order of the rows |
| Scheduler.SelectedIffDue | faim_native/store/pg/repos/self_evolution_state_repo.py:350-448 | Behind open gates selection and decision agree except on unmoved versions and clocks ahead of now |
| Scheduler.SelectedAreEnqueued | faim_native/orchestration/self_evolve_scheduler.py:708-750 | A scan of selected graphs enqueues every candidate whose gates are open and skips the others: it never meets an existing job |
| Scheduler.ScanSettles | faim_native/orchestration/self_evolve_scheduler.py:708-750 | After a scan, whatever faults it met, those still selected are exactly the graphs it did not give a job |
| Scheduler.TallyPartitions | faim_native/orchestration/self_evolve_scheduler.py:708-750 | The scan's counters sum to the graphs scanned |
| Scheduler.VisitsAddJobs | faim_native/orchestration/self_evolve_scheduler.py:708-750 | A scan adds a job for each candidate counted as enqueued and at most one for each error, and keeps one active job per graph |
| Scheduler.Database.EvaluateSelfEvolveDue | faim_native/orchestration/self_evolve_scheduler.py:295-495 | The early-return chain decides as specified and writes the seen version only when asked |
| Scheduler.Database.EnqueueSelfEvolveIfDue | faim_native/orchestration/self_evolve_scheduler.py:498-643 | Evaluation, job insertion and state update leave the specified tables, a failure after insertion included |
| Scheduler.Database.EnqueueAll | faim_native/orchestration/self_evolve_scheduler.py:708-750 | The loop leaves the tables and counters of visiting the candidates in order |
| Scheduler.Database.ScanAndEnqueue | faim_native/orchestration/self_evolve_scheduler.py:646-750 | A scan selects the due graphs, enqueues each whose gates are open and meets no fault, never meets an existing job, counts them all, and leaves selected exactly what it gave no job; it touches nothing when jobs or the mode forbid a scan |
| Ingest.Session.Emit | faim_native/orchestration/ingest_flow.py:151-174 | A failed emission is swallowed and rolls the session back |
| Ingest.Session.RecordIngest | faim_native/store/pg/models_faim.py:1060-1080 | A record commits everything pending; a packet already recorded, or a failing commit, rolls it back |
| Ingest.RunIngest | faim_native/orchestration/ingest_flow.py:383-1010 | Status, committed tables and pending tables after one call, from any session, for every combination of failing steps |
| Ingest.OutcomeMeaning | faim_native/orchestration/ingest_flow.py:467-1010 | A call is a dedup hit if and only if the lookup works and finds the packet, and completes if and only if it is not and preparing, writing and indexing succeed |
| Ingest.NewPacketIsIngested | faim_native/orchestration/ingest_flow.py:383-972 | A fault-free call on a new packet completes and commits exactly its atoms, its record and, on the queued path, its job |
| Ingest.ConsistencyIff | faim_native/orchestration/ingest_flow.py:467-946 | One call breaks the agreement of committed records and atoms if and only if it completes and records a new packet after an emission rolled its atoms back; and of what the session sees, then or when the record raises early on atoms that stand |
| Ingest.OrphanJobIff | faim_native/orchestration/ingest_flow.py:236-274 | A queued index job is left without its atoms if and only if an emission failed between the write and the queueing, none after it, and the job was kept |
| Ingest.LostIff | faim_native/orchestration/ingest_flow.py:637-946 | A call records a new packet without its atoms if and only if it completes and commits the record after an emission, on any index path, rolled the atoms back |
| Ingest.QueuedEmissionLosesAtoms | faim_native/orchestration/ingest_flow.py:803-840 | A failing INDEX_UPSERT_QUEUED emission is such a call |
| Ingest.LostAtomsStayLost | faim_native/orchestration/ingest_flow.py:467-946 | No later call brings lost atoms back, through a dedup hit or, when the lookup fails, through the primary key |
| Ingest.HealthyRunsStayConsistent | faim_native/orchestration/ingest_flow.py:383-1010 | At every boundary of every run in which dedup access and emission succeed nothing is pending, a packet is recorded if and only if its atoms are in the graph, and no packet completes twice |
| Ingest.RepeatIsHit | faim_native/orchestration/ingest_flow.py:467-538 | In such a run repeating a packet, once its blocks are extracted, is a dedup hit that changes nothing |
| CacheKey.KeyRoundTrip | faim_native/cache/query_cache.py:90-129 | Parsing a made key gives the fields back if and only if none contains a colon, and rejects it otherwise |
| CacheKey.KeyExample | faim_native/cache/query_cache.py:90-104 | A key spelled out |
| CacheKey.ParseMeaning | faim_native/cache/query_cache.py:107-129 | Exactly the keys with the prefix, eight parts and two integers are accepted |
| CacheKey.KeyInjective | faim_native/cache/query_cache.py:90-104 | Colon-free fields share their key with no other fields |
| CacheKey.ColonCollides | faim_native/cache/query_cache.py:90-104 | For any fields with a colon, other fields that make the same key |
| CacheKey.KeyUniqueIffClean | faim_native/cache/query_cache.py:90-104 | A key belongs to its fields alone if and only if none of them contains a colon |
| QueryCache.RunKeepsInv | faim_native/cache/query_cache.py:163-248 | Over every interleaving of queries, expiry, outages and version bumps, no cache entry is older than the version in its key |
| QueryCache.Cache.Get | faim_native/cache/query_cache.py:163-203 | Finds the entry under the query's key, and nothing during an outage |
| QueryCache.Cache.Set | faim_native/cache/query_cache.py:205-248 | Stores under that key and nowhere else, and reports whether it did |
| QueryCache.Cache.CachedRecall | faim_native/orchestration/query_flow.py:884-1017 | The lookup and fill of one query perform exactly a Get, and on a miss a Recall and a Set, of the interleaved protocol |
| QueryCache.AskMeaning | faim_native/orchestration/query_flow.py:884-895 | A query reads its own graph's version and asks for 200 results under the key of that version |
| QueryCache.MissMeaning | faim_native/orchestration/query_flow.py:911-992 | Without an entry or during an outage a query recalls from the graph as it is |
| QueryCache.EntryStays | faim_native/cache/query_cache.py:163-248 | An entry that does not expire stays through any run |
| QueryCache.StoredEntryIsHit | faim_native/orchestration/query_flow.py:884-1017 | What one query stored answers the next of its kind at the same version, without a recall, unless it expired or Redis is unreachable |
| QueryCache.BumpMeaning | faim_native/store/pg/repos/graph_version_repo.py:126-179 | A bump moves one graph on by one |
| QueryCache.AnswersAreCurrent | faim_native/orchestration/query_flow.py:884-1017 | Every answer is a recall at a version between the one its query read and the present one |
| QueryCache.UnchangedGraphAnswersExactly | faim_native/orchestration/query_flow.py:884-1017 | While its graph has not changed since the query began, an answer through the cache is exactly what recall computes now |

## Left out

- VPSearch.SearchVPTree: all vectors have one dimension, as ingest enforces; vectors of mixed length, which `zip` would truncate, are not covered. A stored unit vector has squared length 1, or 0 for a zero vector.
- VPTree.BuildIgnoresOrder: rows that repeat an id with different points are not covered, since which of them becomes the pivot depends on the order.
- Wand.BlockMaxWandShortlist: says nothing when a bound is negative and a score above 1 at once; the lexical scorer and the rounding of bounds are parameters.
- GraphStats.Statistician.Add: average lengths and the channels the index does not read are not modelled.
- Locks.AtMostTwoBodies: counts bodies told that they hold the lock; a body that was told it does not is not counted.
- RateLimit.WindowBound: accepted calls that reached Redis; calls waved through during an outage are not counted.
- RateLimit.RunReopensIff: positive limits; a limit of zero or less accepts nothing in any state but an outage or a lost expiry.
- MergeForest.WriteAtoms: hashes, similarities and what the node table lists at each step are parameters; the inheritance part of `write_atoms` and its event list are not modelled.
- Scheduler.RunKeepsOneActive: each enqueue call is one atomic step; two calls interleaving between check and insertion are not modelled, and neither is the effect of an exception before the job is inserted.
- Scheduler.GateMeaning: sources and modes arrive stripped and in lower case, as the code first makes them.
- Scheduler.SelectDueGraphs: one tenant; seconds are real numbers and a graph that never evolved sorts at -1, as in the source.
- Ingest.RunIngest: one packet stands for all its atoms and jobs are a set; the emitted events, latencies and document bookkeeping are not modelled, and a rollback always succeeds.
- Ingest.LostAtomsStayLost: calls whose check fails and whose record then raises before it touches the session are excluded; their atoms stay pending and another packet's record commits them.
- QueryCache.AnswersAreCurrent: for vector hashes that are colon-free and do not collide and for colon-free tenants, graphs and profiles; recall is a function of query and version; serialisation is not captured, and non-strict recall and the hybrid recall path are not modelled.
- CacheKey.KeyRoundTrip: integers print and parse in plain decimal; `int()` also accepts a plus sign, underscores and spaces, which made keys never contain.
- Text.NormalizeMeaning: lower case is that of ASCII letters; white space is all of Python's.
- SemanticMemory.SelectGroups: similarity and mined aliases are parameters; the bundle rows, lexicon rows and pair weights derived from the groups are not modelled.
- SemanticMemory.SelectionIgnoresOrder: for similarities that do not depend on the order of their arguments.
- Phrases.MatchPhrasePatterns: for tables of two-token patterns, as the source's table is; tokens are given.
- Floating-point error, `math.isclose` tolerances, `log2` and SHA-256.
- HTTP, SQL, Redis and Qdrant transport, retries' waiting times, file descriptors, logging.
- `_stable_union_ids`, `try_lock`, `StatsCache`, `compute_all`, `aggregate`, and bucket counting in `representation_v2.py` and `text_vectorizer.py`: only easy members.
- Stemmers, lemmatizers, lexicon builders, policy tables, embedding providers, OCR and benchmark orchestration: branch tables and plumbing.
