# GeneWalk statistics core and INDRA SIF filters, modelled in Dafny

This project models the statistics-and-aggregation engine of GeneWalk and
two INDRA statement-table scripts.

- **`GeneWalk` in `genewalk/perform_statistics.py`.**
  - `P_sim` gives the empirical p-value of a similarity against a null
    distribution. The null distribution is stratified by connectivity, so each
    lookup uses the bucket `floor(log2(N_con))`.
  - `get_GO_df` scores every GO term connected to a gene and applies
    Benjamini–Hochberg FDR correction. When `alpha_FDR < 1` it then keeps only
    the rows with `padj < alpha_FDR`.
  - `generate_output` runs in the human-gene branch. For each replicate it
    fills `outdfs[rep]`, one block of rows per gene of interest, then sorts
    that table by HGNC rank, Symbol and GO:ID. Next it outer-merges the
    replicate tables on the identity columns and computes mean and SEM
    columns. Finally it sorts by HGNC rank, `mean:padj` and GO description.
- **`make_indra_sif.py`.**
  - `load_genes` reads a gene list.
  - `filter_to_genes` keeps statements whose two agents are both HGNC genes of
    the list.
  - `collapse_and_count` groups rows by agent pair and statement type and sums
    the numeric columns.
- **`ngf/make_indra_sif.py`.**
  - `load_genes`: the same comprehension as above.
  - `filter_to_genes` accepts HGNC or FamPlex sources, and HGNC, FamPlex or GO
    targets.
  - `get_famplex_terms` takes the set union of the FamPlex parents of the
    genes and returns it sorted.

## Form of the model

**Value computations** are datatypes, functions and lemmas. These are:
- `NullDist`: the bucket key, `searchsorted`, and `P_sim`.
- `Fdr`: Benjamini–Hochberg.
- `Scorer`: one call of `get_GO_df`.
- `Aggregate`: the replicate tables, the merge, the statistics and the sorts.
- `GeneList`: `strip`, `split`, `join` and `load_genes`.
- `IndraSif` and `NgfSif`: the filters and the grouping.

**`GeneWalk` is a class** in `GeneWalkModel`. It has the fields the Python
object updates in place:
- `nv`, the current replicate's node vectors;
- `outdfs`, a `map<nat, seq<RepRow>>` keyed by replicate number;
- the merged table `merged`;
- the final table `summary`.

**Its methods are imperative.** They loop over nodes, replicates and merge
steps, and each is proved equal to the specification function of the same
operation.
- `ScoreReplicate` fills `outdfs[rep]` one node at a time.
- `MergeReplicates` starts from a copy of replicate 1 and merges the others in
  one at a time.
- `GenerateOutput` composes both and states the final table.

**`NgfSif.GetFamplexTerms` is a method** with the source's accumulating loop.
It lists the set and sorts it.

**Properties proved** include the following:
- `P_sim` is in [0, 1], is antitone in the similarity, and is exactly the
  upper-tail fraction of the bucket. Its error cases are a missing bucket
  (`KeyError`) and an empty bucket (`ZeroDivisionError`).
- The adjusted p-values satisfy `p <= q <= 1` and are monotone in `p`. The
  step-up procedure over sorted p-values equals the order-free definition.
- Filtering with `alpha_FDR = t` equals scoring with `alpha_FDR = 1` and then
  filtering at `t`.
- Every GO row of a gene is a GO neighbour. It has that neighbour's degree,
  name, similarity and p-value, and the rows keep the embedding's order.
- The merge has one row per identity that occurs in any replicate, and column
  `r` holds exactly replicate `r`'s measures or nothing.
- Every output row carries the mean and SEM of the replicates that hold its
  identity, with `0 <= mean:pval <= mean:padj <= 1`.
- The output is a sorted permutation of the summarized merge, ordered by HGNC
  rank, then `mean:padj`, then GO description.
- `load_genes` succeeds exactly when every stripped line has a `:`, and then
  returns the second field of each line.
- The two `filter_to_genes` versions keep exactly the rows their masks accept.
  Narrowed to gene pairs, the FamPlex version selects the same rows as the
  plain one.
- `collapse_and_count` produces one group per distinct key, strictly
  increasing. The group totals add up to the column totals.
- `get_famplex_terms` returns a strictly sorted list whose elements are
  exactly the parents of the genes. Because such a list is unique, the result
  does not depend on the order in which the set is listed.

**In these places the code behaves differently from what a reader might
expect, and the model follows the code:**
- A `KeyError` raised while scoring one node is swallowed, and that node
  contributes no rows (perform_statistics.py:168-169). Examples are a node
  without an `HGNC` attribute, a gene without a vector, or a GO term without
  a `name`. An empty bucket, which raises `ZeroDivisionError`, ends the whole
  run.
- The SEM divides the sample standard deviation by `sqrt(Nreps)`, not by the
  square root of the number of replicates that hold the pair
  (perform_statistics.py:190-202).
- The FDR filter keeps `padj < alpha_FDR`, strictly
  (perform_statistics.py:258-259). With `alpha_FDR >= 1` nothing is filtered.
- `get_GO_df` filters each replicate's rows at `alpha_FDR` before the merge
  and the averaging (perform_statistics.py:258-259, then 177-202). So
  filtering the `alpha_FDR = 1` output at `t` is not the same as running
  with `t`. A pair with padj 0.01 in one replicate and 0.2 in the other has
  `mean:padj` 0.105 when run at 1, so a filter at 0.1 drops it. Run at 0.1,
  the same pair is reported with `mean:padj` 0.01 (`Aggregate.FilterBeforeMerge`).
  The equivalence holds only for a single `get_GO_df` call (`Scorer.GODfAlpha`).
- With `Nreps = 0` no replicate is scored and `generate_output` always
  raises. If `outdfs[1]` is missing, the copy at perform_statistics.py:177
  raises KeyError. If an earlier call left an `outdfs[1]`, the copy writes it
  onto itself, and `len(COLUMNS)` at line 188 raises UnboundLocalError:
  `COLUMNS` is assigned only inside the two loops (lines 124 and 184), and
  neither loop runs (`GeneWalkModel.GeneWalk.GenerateOutput`).

## Model

| member | source | states |
|---|---|---|
| NullDist.Log2Floor | genewalk/perform_statistics.py:222 | the bucket exponent k satisfies 2^k <= N_con < 2^(k+1) |
| NullDist.Log2FloorUnique | genewalk/perform_statistics.py:222 | that k is the only exponent with this property, so `floor(log2 N_con)` is determined |
| NullDist.BucketKey | genewalk/perform_statistics.py:244 | the key for `min(N_GO_con, N_gene_con)` is at most log2 of both degrees and the floor of log2 of the smaller one |
| NullDist.CountBelowIsLeftInsertionPoint | genewalk/perform_statistics.py:223-224 | on an ascending sample the count of values below sim is the left insertion point: everything before it is < sim, everything from it on is >= sim |
| NullDist.CountBelowAtLeast | genewalk/perform_statistics.py:223-226 | values below sim plus values at least sim make up the whole sample |
| NullDist.CountBelowMonotone | genewalk/perform_statistics.py:223-224 | a larger similarity never gets a smaller rank |
| NullDist.CountBelowZero | genewalk/perform_statistics.py:223-224 | the rank is 0 exactly when sim is at most every sampled value |
| NullDist.CountBelowAll | genewalk/perform_statistics.py:223-224 | the rank is the sample size exactly when every sampled value is below sim |
| NullDist.PSim | genewalk/perform_statistics.py:218-227 | fails exactly when the bucket is missing (KeyError) or empty (division by zero); otherwise the p-value lies in [0, 1] |
| NullDist.PSimIsUpperTailFraction | genewalk/perform_statistics.py:223-226 | `1 - rank/len` is the fraction of sampled values at least sim |
| NullDist.PSimIsOne | genewalk/perform_statistics.py:225-226 | the p-value is 1 exactly when sim is at most the bucket's smallest value |
| NullDist.PSimIsZero | genewalk/perform_statistics.py:225-226 | the p-value is 0 exactly when sim exceeds the bucket's largest value |
| NullDist.PSimMonotone | genewalk/perform_statistics.py:218-227 | a higher similarity in the same bucket never gets a higher p-value, and it succeeds whenever the lower one does |
| Fdr.AdjustBounds | genewalk/perform_statistics.py:252-257 | each Benjamini–Hochberg adjusted value q satisfies p <= q <= 1 |
| Fdr.AdjustMonotone | genewalk/perform_statistics.py:252-257 | a smaller p-value never gets a larger adjusted value |
| Fdr.AdjustTies | genewalk/perform_statistics.py:252-257 | equal p-values get equal adjusted values |
| Fdr.StepUpAgrees | genewalk/perform_statistics.py:252-255 | on ascending p-values, the step-up running minimum of min(1, p_i m / i) from the top equals the order-free definition of the adjusted value |
| Fdr.CountAtMostPermutation | genewalk/perform_statistics.py:252-255 | the rank a p-value takes counts the same whatever the order of the p-values |
| Fdr.CappedMinPermutation | genewalk/perform_statistics.py:252-255 | the adjusted value of a p-value depends only on the multiset of this gene's p-values |
| Fdr.AdjustIsStepUpOfSorted | genewalk/perform_statistics.py:252-257 | for p-values in any order, the q-value of each is the step-up value of the ascending-sorted list at a position holding the same p-value: sort, step up, unsort |
| Network.GoNodes | genewalk/perform_statistics.py:70 | a node is a GO node exactly when it carries the GO attribute |
| Network.GoNeighbours | genewalk/perform_statistics.py:234 | a node is a GO neighbour of the gene exactly when it is adjacent to it and a GO node |
| Network.GoNeighbourDegrees | genewalk/perform_statistics.py:241-244 | a GO neighbour and the gene both have degree at least 1, so the bucket key is defined |
| Scorer.CandidatesMembership | genewalk/perform_statistics.py:234-238 | the rows of `simdf` are exactly the ranked neighbours that are GO neighbours of the gene |
| Scorer.FilterKeepsDescending | genewalk/perform_statistics.py:235-238 | filtering the most-similar ranking keeps it in descending order of similarity |
| Scorer.ScoreOne | genewalk/perform_statistics.py:241-245 | a scored row has the GO term's id, similarity, degree and name, and a p-value in [0, 1] |
| Scorer.ScoreOneRow | genewalk/perform_statistics.py:241-245 | the row's p-value is `P_sim` of its similarity at `min(N_GO_con, N_gene_con)` |
| Scorer.ScoreAllSuccess | genewalk/perform_statistics.py:240-245 | the loop succeeds exactly when every term scores, and then row i is term i's score |
| Scorer.ScoreAllFirstFailure | genewalk/perform_statistics.py:240-245 | a failing loop raises the error of the first term that fails, and all earlier terms scored |
| Wrappers.CollectFailure | genewalk/perform_statistics.py:240-245 | once a prefix of the loop fails, the whole loop fails with that error |
| Scorer.WithPadjRows | genewalk/perform_statistics.py:246-257 | the inserted columns keep each row's values, and padj is the BH adjustment of the pval column, with pval <= padj <= 1 |
| Scorer.GODf | genewalk/perform_statistics.py:229-261 | a gene without a vector raises KeyError |
| Scorer.GODfRows | genewalk/perform_statistics.py:229-257 | unfiltered, one row per candidate in ranking order, each with the GO term's id, degree, name, similarity, P_sim p-value and BH padj |
| Scorer.GODfAlpha | genewalk/perform_statistics.py:252-261 | with alpha_FDR < 1 the result is the alpha_FDR = 1 result filtered to padj < alpha_FDR; at or above 1 it is the same; both fail alike |
| Scorer.GODfBounds | genewalk/perform_statistics.py:252-261 | every returned row has 0 <= pval <= padj <= 1, and padj < alpha_FDR when alpha_FDR < 1 |
| Aggregate.GODfDistinct | genewalk/perform_statistics.py:234-238 | no GO:ID occurs twice in a gene's table |
| Aggregate.NodeRowsShape | genewalk/perform_statistics.py:159-169 | a node's block names the node as Symbol, its HGNC attribute (which is in the gene list) as HGNC, its degree as N_con(gene), and has distinct GO:IDs |
| Aggregate.TableShape | genewalk/perform_statistics.py:158-169 | the appended blocks have pairwise distinct identities, all from nodes already visited and genes of the list |
| Aggregate.TableMeasures | genewalk/perform_statistics.py:158-169 | every row of a replicate table has 0 <= pval <= padj <= 1, and padj < alpha_FDR when alpha_FDR < 1 |
| Aggregate.TableUpToFailure | genewalk/perform_statistics.py:158-169 | an exception other than KeyError at one node ends the replicate with that error |
| Aggregate.ReplicateLeIsPreorder | genewalk/perform_statistics.py:170-172 | the order by HGNC category rank, then Symbol, then GO:ID is a total preorder |
| Aggregate.SortReplicateSpec | genewalk/perform_statistics.py:170-172 | the sorted replicate table is ordered by that preorder, is a permutation of the table, and keeps identities distinct |
| Aggregate.AllTablesSpec | genewalk/perform_statistics.py:108-175 | the replicate loop succeeds exactly when every replicate's table does, and then table r is replicate r's table |
| Aggregate.AllTablesFailure | genewalk/perform_statistics.py:108-175 | a failing replicate ends the loop with its error |
| Aggregate.AllTablesSound | genewalk/perform_statistics.py:108-175 | every replicate table has distinct identities, gene-list HGNC ids and well-bounded measures |
| Aggregate.Lookup | genewalk/perform_statistics.py:187 | a table has no value for an identity exactly when no row has it, and otherwise returns that row's measures |
| Aggregate.LookupRow | genewalk/perform_statistics.py:187 | in a table with distinct identities, looking up a row's identity gives that row's measures |
| Aggregate.NovelRows | genewalk/perform_statistics.py:187 | the rows an outer merge adds are exactly the table's rows whose identity the accumulator lacks |
| Aggregate.MergeStepShape | genewalk/perform_statistics.py:187 | one outer merge extends each existing row with the table's value or nothing, and appends new rows with nothing for all earlier replicates |
| Aggregate.MergeStepDistinct | genewalk/perform_statistics.py:187 | an outer merge keeps identities distinct |
| Aggregate.MergeStepKeys | genewalk/perform_statistics.py:187 | the merged identities are the union of both sides' identities |
| Aggregate.MergeStepColumns | genewalk/perform_statistics.py:187 | each merge adds exactly one replicate column, holding that table's value, and keeps earlier columns |
| Aggregate.FirstMergedIsMerge | genewalk/perform_statistics.py:177 | the copy of replicate 1 is what merging it into an empty table would give |
| Aggregate.UnionKeysHas | genewalk/perform_statistics.py:177-187 | every identity of a merged replicate is in the union |
| Aggregate.UnionKeysFrom | genewalk/perform_statistics.py:177-187 | every identity of the union comes from some replicate's row |
| Aggregate.MergeSpec | genewalk/perform_statistics.py:177-187 | after k replicates: distinct identities, identities = union of the tables', k replicate columns, column r = replicate r's measures or nothing |
| Aggregate.MergedReps | genewalk/perform_statistics.py:177-187 | each merged row's replicate columns are exactly what each replicate holds for its identity |
| Aggregate.PresentEmpty | genewalk/perform_statistics.py:188-202 | the values averaged (NaN skipped) are empty exactly when no replicate holds the row |
| Aggregate.PresentBounds | genewalk/perform_statistics.py:188-202 | bounds on every present replicate value hold for the values averaged |
| Aggregate.PresentPaired | genewalk/perform_statistics.py:193-202 | per-replicate pval <= padj carries over, position by position, to the values averaged |
| Aggregate.SumMonotone | genewalk/perform_statistics.py:188-202 | the row sum is monotone in its values |
| Aggregate.MeanBounds | genewalk/perform_statistics.py:188-189 | the mean of non-empty values lies within their bounds |
| Aggregate.MeanMonotone | genewalk/perform_statistics.py:193-199 | pointwise smaller values have a smaller mean |
| Aggregate.MeanOfConstant | genewalk/perform_statistics.py:188-202 | identical replicate values have that mean and SEM 0, or NaN SEM when only one replicate holds them |
| Aggregate.SemSqNonNegative | genewalk/perform_statistics.py:190-192 | with two or more values present the (squared) SEM is defined and non-negative |
| Aggregate.SoundStats | genewalk/perform_statistics.py:188-202 | a row that any replicate holds gets defined means with 0 <= mean:pval <= mean:padj <= 1 |
| Aggregate.SummaryRow | genewalk/perform_statistics.py:188-202 | every identity of the union has a gene-list HGNC id and well-defined, bounded means |
| Aggregate.SummaryOfMerge | genewalk/perform_statistics.py:177-202 | the summarized merge has one row per identity of the union, each carrying mean and SEM of exactly the replicates holding it |
| Aggregate.Rank | genewalk/perform_statistics.py:209-210 | the category rank of an HGNC id is the index of its first occurrence in the gene list, and ranks past the list exactly for ids not in it |
| Aggregate.OutputLeIsPreorder | genewalk/perform_statistics.py:208-211 | the order by HGNC rank, then mean:padj (NaN last), then GO description is a total preorder |
| Aggregate.OutputSorted | genewalk/perform_statistics.py:177-211 | the output is sorted by that order and is a permutation of the summarized merge |
| Aggregate.OutputRows | genewalk/perform_statistics.py:93-211 | every output row is an identity of the union with a gene-list HGNC id, carries mean/SEM over the replicates holding it, and has 0 <= mean:pval <= mean:padj <= 1; with alpha_FDR < 1 it also has mean:padj < alpha_FDR, as the docstring promises |
| Aggregate.MeanBelow | genewalk/perform_statistics.py:198-199 | the mean of values all below a bound is below it |
| Aggregate.FilterBeforeMerge | genewalk/perform_statistics.py:177-202 | a pair with padj 0.01 and 0.2 in two replicates has mean:padj 0.105 unfiltered (so a filter at 0.1 drops it), but mean:padj 0.01 when each replicate is filtered at 0.1 before the merge |
| Aggregate.OutputKeys | genewalk/perform_statistics.py:177-211 | output identities are distinct and are exactly the identities any replicate produced |
| Aggregate.OutputOrder | genewalk/perform_statistics.py:208-211 | for i < j, row i's HGNC rank is at most row j's; at equal rank mean:padj does not decrease; at equal mean:padj the GO description does not decrease |
| GeneWalkModel.ScoreStep | genewalk/perform_statistics.py:240-245 | one iteration of the loop either raises the term's error for the whole loop or appends its description, degree and p-value |
| GeneWalkModel.GODfFromScored | genewalk/perform_statistics.py:246-261 | the scored lists, with padj inserted and the alpha filter applied, are `get_GO_df`'s result |
| GeneWalkModel.NodeStep | genewalk/perform_statistics.py:167 | a successful node appends its block to the replicate table |
| GeneWalkModel.NodeFailureEndsRun | genewalk/perform_statistics.py:158-169 | an exception other than KeyError at a node ends `generate_output` with that error |
| GeneWalkModel.OutputFromTables | genewalk/perform_statistics.py:177-211 | given the replicate tables, the output is the sorted summary of their merge |
| GeneWalkModel.GeneWalk.constructor | genewalk/perform_statistics.py:60-73 | stores graph and null distribution, with no node vectors and an empty `outdfs` |
| GeneWalkModel.GeneWalk.GetGODf | genewalk/perform_statistics.py:229-261 | the loop over `simdf` computes exactly `get_GO_df`'s result, including its errors |
| GeneWalkModel.GeneWalk.ScoreCandidate | genewalk/perform_statistics.py:241-245 | one candidate's score is exactly `ScoreOne`: a KeyError when the GO node has no 'name', P_sim's error, or the description, `N_con(GO)` and p-value on min(N_con(gene), N_con(GO)); on success the returned `N_con(GO)` is the candidate's degree |
| GeneWalkModel.GeneWalk.ScoreAppend | genewalk/perform_statistics.py:241-245 | given lists that hold the first i scored candidates, one pass either returns the error that ends the whole loop or extends the three lists by one entry each so that they hold the first i + 1 |
| GeneWalkModel.GeneWalk.ScoreCandidates | genewalk/perform_statistics.py:240-245 | the loop returns exactly `ScoreAll`: the first candidate's error, or the scored candidates, with `DES`, `N_GO_CON` and `PVAL` of length len(simdf) that assemble into them |
| GeneWalkModel.GeneWalk.AppendNode | genewalk/perform_statistics.py:158-169 | given `outdfs[rep]` holding the table of the first k nodes, one pass either returns the error that ends the replicate or makes `outdfs[rep]` the table of the first k + 1 nodes; no other entry of `outdfs` changes |
| GeneWalkModel.GeneWalk.RunReplicate | genewalk/perform_statistics.py:109-175 | loads replicate rep's node vectors into `nv`; on failure its error is the run's error, on success `outdfs[1..rep]` hold the first rep replicate tables; no entry of `outdfs` other than rep changes |
| GeneWalkModel.GeneWalk.NodeBlock | genewalk/perform_statistics.py:159-169 | a node's block: nothing for non-genes of the list or a KeyError, the error for any other exception, else the table with HGNC, Symbol and N_con(gene) inserted |
| GeneWalkModel.GeneWalk.ScoreReplicate | genewalk/perform_statistics.py:128-172 | the node loop computes the replicate table or its error, writes it to `outdfs[rep]` and changes no other entry |
| GeneWalkModel.GeneWalk.ScoreReplicates | genewalk/perform_statistics.py:108-175 | the replicate loop fails exactly when some replicate fails, with the first error; on success `outdfs[1..Nreps]` hold the replicate tables and `nv` the last replicate's vectors; entries of `outdfs` outside 1..Nreps never change |
| GeneWalkModel.GeneWalk.MergeReplicates | genewalk/perform_statistics.py:177-187 | copying replicate 1 and merging replicates 2..Nreps in order gives the outer merge of all tables |
| GeneWalkModel.GeneWalk.GenerateOutput | genewalk/perform_statistics.py:93-216 | with Nreps = 0 and an `outdfs[1]` left by an earlier call it raises UnboundLocalError (`COLUMNS` is assigned only inside the loops, 124 and 184, and read at 188) and leaves `outdfs` unchanged; otherwise it returns `Aggregate.GenerateOutput`'s output or error (KeyError when Nreps = 0 and there is no `outdfs[1]`); on success `outdfs[q]` is replicate q's table, `nv` the last replicate's vectors, `merged` their merge, and `summary` the result; on failure `merged` and `summary` are unchanged |
| GeneList.StripSpec | make_indra_sif.py:14 | `strip()` returns the slice between leading and trailing whitespace (Python's `isspace` set), which neither starts nor ends with whitespace |
| GeneList.StripIdempotent | make_indra_sif.py:14 | stripping twice is stripping once |
| GeneList.JoinSplit | make_indra_sif.py:14 | joining the pieces of `split(':')` with ':' gives the line back |
| GeneList.SplitPieces | make_indra_sif.py:14 | no piece contains ':', and there are two or more pieces exactly when the line has a ':' |
| GeneList.SplitJoin | make_indra_sif.py:14 | splitting joined separator-free pieces gives them back |
| GeneList.SecondFieldSpec | make_indra_sif.py:14 | `split(':')[1]` exists exactly when the line has a ':' (else IndexError), and is the text between the first ':' and the next ':' or the end |
| GeneList.LoadGenesSpec | make_indra_sif.py:10-15 | the list loads exactly when every stripped line has a ':', and then gives each line's second field in order; otherwise IndexError |
| GeneList.LoadGenes | ngf/make_indra_sif.py:18-25 | a loaded list has one id per line |
| IndraSif.FilterToGenesSpec | make_indra_sif.py:28-34 | a row is kept exactly when both agents are HGNC genes of the list; input order is kept; filtering again changes nothing |
| IndraSif.KeyLeIsPreorder | make_indra_sif.py:37-41 | lexicographic order on the seven group columns is a total preorder |
| IndraSif.DistinctKeysSpec | make_indra_sif.py:37-41 | the group keys are exactly the keys of the rows, each once |
| IndraSif.SortedKeys | make_indra_sif.py:37-41 | the sorted group keys are the rows' keys, distinct and strictly increasing |
| IndraSif.CollapseKeys | make_indra_sif.py:37-41 | there is one group per distinct key, in strictly increasing key order |
| IndraSif.CollapseTotals | make_indra_sif.py:37-41 | each group's count column c is the sum of column c over its rows, and the group totals add up to the table's column totals |
| NgfSif.FilterToGenesSpec | ngf/make_indra_sif.py:43-57 | a row is kept exactly when source and target pass their tests; kept rows are in input order, have HGNC or FPLX sources, and a passing source with a GO target is always kept |
| NgfSif.NarrowsToGenePairs | ngf/make_indra_sif.py:43-57 | restricted to gene pairs, this filter selects exactly what the plain `filter_to_genes` selects |
| NgfSif.AllParentsSpec | ngf/make_indra_sif.py:63-69 | the union holds an id exactly when it is a parent of some gene |
| NgfSif.LessEqIsPreorder | ngf/make_indra_sif.py:70 | Python's string order is a total preorder |
| NgfSif.SortedDistinct | ngf/make_indra_sif.py:70 | sorting a duplicate-free list makes it strictly increasing and keeps its elements |
| NgfSif.StrictlySortedUnique | ngf/make_indra_sif.py:70 | two strictly increasing lists with the same elements are equal, so the result does not depend on the set's listing order |
| NgfSif.GetFamplexTerms | ngf/make_indra_sif.py:60-72 | the terms are strictly increasing and are exactly the parents of the genes |
| Lex.LessIrreflexive | ngf/make_indra_sif.py:70 | no string is below itself in code-point order |
| Lex.LessTransitive | ngf/make_indra_sif.py:70 | code-point order on strings is transitive |
| Lex.LessTotal | ngf/make_indra_sif.py:70 | any two different strings are ordered |
| Lex.LessAsymmetric | ngf/make_indra_sif.py:70 | two strings are never each below the other |
| Lex.TupleLessIrreflexive | make_indra_sif.py:38-40 | no key tuple is below itself |
| Lex.TupleLessTransitive | make_indra_sif.py:38-40 | tuple order is transitive |
| Lex.TupleLessTotal | make_indra_sif.py:38-40 | any two different key tuples of the same length are ordered |

## Left out

- **Mouse-gene branch** (perform_statistics.py:104-105, 119-122, 130-156, 179-182, 203-207, and `_load_mouse_genes`). It depends on an external MGI-to-HGNC mapping, so only the human branch is modelled.
- **File and process I/O.** Not modelled:
  - reading the replicate pickles (112-115), `to_csv` (215), logging and argparse;
  - `load_indra_df`, `dump_sif`, `dump_pickle`, `download_statements` and the `__main__` blocks.
  The node vectors of the replicates are a parameter `nvs`, and `Nreps` is `|nvs|`. The lines of a gene-list file are a parameter.
- **Attributes `__init__` never sets.** `hgncid`, `Nreps`, `path` and `mouse_genes` become parameters, or are left out.
- **The embedding.** gensim's `most_similar` is abstracted as `Embedding`, a map from a gene to its ranked list of neighbours and similarities. A ranking is assumed sorted by descending similarity with distinct nodes. Vector arithmetic is out of scope.
- **FDR correction.** The statsmodels internals are left out. Benjamini–Hochberg (`method='indep'`) is stated as its mathematical definition, and its step-up form is proved equal to it. The `BOOL` rejection output is unused in the source and is dropped.
- **Floating point.** Similarities, p-values and statistics are exact reals. NaN is `None`.
- NullDist.PSim counts the bucket's values below `sim` on any bucket. On an unsorted bucket numpy's `searchsorted` returns a binary-search artefact instead. The null buckets are assumed ascending (`ValidNullDistribution`), as `searchsorted` requires, and the lemmas that use the insertion point state that assumption.
- **Aggregate.SemSq** gives the square of the SEM, `var(ddof=1) / Nreps`. It does not take a square root, because the model works in exact reals.
- **Column renaming and dropping** (174-175, 212-214) are not modelled. Only the data they carry is, since a row holds one column per replicate.
- **`outdfs[Nreps+1]`.** The source stores the merged table in `outdfs` under key `Nreps+1`. The model keeps it in the separate fields `merged` and `summary`. So `outdfs` only ever holds replicate tables.
- **Row order of pandas' outer merge** is not modelled. Merged rows appear in first-appearance order, and only the final sort order is stated.
- **Sort tie order.** Both `sort_values` calls (172, 211) sort on several columns, which pandas does with a stable lexicographic sort; the model's insertion sort is stable too. Rows that tie on every sort key keep their order from before the sort. Before the replicate sort (172) that is the node loop's order, which is modelled. Before the final sort (211) it is the outer merge's order, which is not modelled (see the previous line).
- **Aggregate.MeanOfConstant** states only one direction: constant values give SEM 0. The converse, that SEM 0 means constant values, is not proved.
- **Hierarchy lookups in `get_famplex_terms`** (65-68): `hgnc_client.get_hgnc_name`, `get_uri`, `get_parents` and `ns_id_from_uri`. They depend on INDRA's hierarchy files. They are composed into one function parameter, `parents`, that maps a gene id to its parent ids.
- **Non-key columns of `collapse_and_count`.** What pandas `groupby(...).sum()` does with non-numeric columns depends on the pandas version: from 2.0 it concatenates them, and before 2.0 it drops them as nuisance columns. The model leaves them out. The numeric columns are `counts: seq<int>`, and every row has the same number of them.
- IndraSif.CollapseAndCount: the summed columns are unbounded integers. pandas sums them as int64, which wraps around past 2^63 - 1; that overflow is not modelled, and neither are float columns.
- **Non-string ids and NaN keys.** pandas `isin` and `groupby` on such values are not modelled, so ids and names are strings.
