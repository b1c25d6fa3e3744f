/** The `GeneWalk` object of genewalk/perform_statistics.py as a class: the
    network, the GO node set, the current replicate's node vectors, the
    null distributions and the per-replicate tables it fills in place.
    `get_GO_df` and the human-gene branch of `generate_output` are methods
    proved equal to the functions of the Scorer and Aggregate modules. */
module GeneWalkModel {
  import opened Wrappers
  import opened Seqs
  import opened Network
  import opened Scorer
  import opened Aggregate
  import NullDist
  import Fdr

  /** The scored candidates as the three lists `N_GO_CON`, `DES` and `PVAL`
      describe them, next to the filtered ranking `simdf`. */
  function Assemble(simdf: seq<Neighbour>, descs: seq<string>, nGoCons: seq<nat>, pvals: seq<real>): (s: seq<Scored>)
    requires |descs| == |nGoCons| == |pvals| == |simdf|
    ensures |s| == |simdf|
  {
    seq(|simdf|, j requires 0 <= j < |simdf| =>
      Scored(descs[j], simdf[j].node, nGoCons[j], simdf[j].similarity, pvals[j]))
  }

  /** One more scored candidate extends the scored prefix by its row; one
      that fails ends the loop with its exception. */
  lemma ScoreStep(g: Graph, srd: NullDist.NullDistribution, gene: string, nGeneCon: nat,
                  simdf: seq<Neighbour>, i: nat,
                  descs: seq<string>, nGoCons: seq<nat>, pvals: seq<real>)
    requires ValidGraph(g) && gene in g.adj && nGeneCon == Degree(g, gene)
    requires forall j :: 0 <= j < |simdf| ==> simdf[j].node in GoNeighbours(g, gene)
    requires i < |simdf| && |descs| == |nGoCons| == |pvals| == i
    requires CollectUpTo(ScoreResults(g, srd, gene, nGeneCon, simdf), i)
          == Success(Assemble(simdf[..i], descs, nGoCons, pvals))
    ensures var one := ScoreOne(g, srd, gene, nGeneCon, simdf[i]);
      && (one.Failure? ==> ScoreAll(g, srd, gene, nGeneCon, simdf) == Failure(one.error))
      && (one.Success? ==>
            CollectUpTo(ScoreResults(g, srd, gene, nGeneCon, simdf), i + 1)
              == Success(Assemble(simdf[..i + 1], descs + [one.value.description],
                                  nGoCons + [one.value.nGoCon], pvals + [one.value.pval])))
  {
    var rs := ScoreResults(g, srd, gene, nGeneCon, simdf);
    var one := ScoreOne(g, srd, gene, nGeneCon, simdf[i]);
    assert rs[i] == one;
    if one.Failure? {
      CollectFailure(rs, i + 1, |simdf|);
    } else {
      var a := Assemble(simdf[..i + 1], descs + [one.value.description],
                        nGoCons + [one.value.nGoCon], pvals + [one.value.pval]);
      assert a == Assemble(simdf[..i], descs, nGoCons, pvals) + [one.value];
    }
  }

  /** With every candidate scored, `get_GO_df` is the BH column over the
      lists and the optional filter. */
  lemma GODfFromScored(g: Graph, emb: Embedding, srd: NullDist.NullDistribution, gene: string,
                       nGeneCon: nat, alphaFdr: real, scored: seq<Scored>)
    requires ValidGraph(g) && gene in g.adj && nGeneCon == Degree(g, gene) && gene in emb
    requires CandidatesOk(g, gene, emb[gene])
    requires ScoreAll(g, srd, gene, nGeneCon, Candidates(g, gene, emb[gene])) == Success(scored)
    ensures GODf(g, emb, srd, gene, nGeneCon, alphaFdr)
         == if alphaFdr < 1.0 then Success(Filter(WithPadj(scored), (row: GORow) => row.padj < alphaFdr))
            else Success(WithPadj(scored))
  {
  }

  ghost predicate CandidatesOk(g: Graph, gene: string, ranking: seq<Neighbour>)
    requires gene in g.adj
  {
    forall j :: 0 <= j < |Candidates(g, gene, ranking)| ==> Candidates(g, gene, ranking)[j].node in GoNeighbours(g, gene)
  }

  /** A node whose get_GO_df raised something other than KeyError ends the
      whole run with that exception. */
  lemma NodeFailureEndsRun(g: Graph, nvs: seq<Embedding>, srd: NullDist.NullDistribution,
                           hgncid: seq<string>, alphaFdr: real, rep: nat, k: nat, e: Error)
    requires ValidGraph(g) && 1 <= rep <= |nvs| && k < |g.nodes|
    requires AllTables(g, nvs, srd, hgncid, alphaFdr, rep - 1).Success?
    requires TableUpTo(g, nvs[rep - 1], srd, hgncid, alphaFdr, k).Success?
    requires NodeRows(g, nvs[rep - 1], srd, hgncid, alphaFdr, g.nodes[k]) == Failure(e)
    ensures Aggregate.GenerateOutput(g, nvs, srd, hgncid, alphaFdr) == Failure(e)
  {
    var emb := nvs[rep - 1];
    NodeStep(g, emb, srd, hgncid, alphaFdr, k, TableUpTo(g, emb, srd, hgncid, alphaFdr, k).value);
    ReplicateTableOf(g, emb, srd, hgncid, alphaFdr);
    ReplicateFailureEndsRun(g, nvs, srd, hgncid, alphaFdr, rep, e);
  }

  /** A replicate whose node loop raised ends the whole run with that
      exception. */
  lemma ReplicateFailureEndsRun(g: Graph, nvs: seq<Embedding>, srd: NullDist.NullDistribution,
                                hgncid: seq<string>, alphaFdr: real, rep: nat, e: Error)
    requires ValidGraph(g) && 1 <= rep <= |nvs|
    requires AllTables(g, nvs, srd, hgncid, alphaFdr, rep - 1).Success?
    requires ReplicateTable(g, nvs[rep - 1], srd, hgncid, alphaFdr) == Failure(e)
    ensures Aggregate.GenerateOutput(g, nvs, srd, hgncid, alphaFdr) == Failure(e)
  {
    AllTablesStep(g, nvs, srd, hgncid, alphaFdr, rep - 1, AllTables(g, nvs, srd, hgncid, alphaFdr, rep - 1).value);
  }

  /** One more node appends its block to the rows of the nodes before it;
      a node that fails makes the whole node loop fail with its exception. */
  lemma NodeStep(g: Graph, emb: Embedding, srd: NullDist.NullDistribution,
                 hgncid: seq<string>, alphaFdr: real, k: nat, rows: seq<RepRow>)
    requires ValidGraph(g) && k < |g.nodes|
    requires TableUpTo(g, emb, srd, hgncid, alphaFdr, k) == Success(rows)
    ensures var block := NodeRows(g, emb, srd, hgncid, alphaFdr, g.nodes[k]);
      && (block.Success? ==> TableUpTo(g, emb, srd, hgncid, alphaFdr, k + 1) == Success(rows + block.value))
      && (block.Failure? ==> TableUpTo(g, emb, srd, hgncid, alphaFdr, |g.nodes|) == Failure(block.error))
  {
    if NodeRows(g, emb, srd, hgncid, alphaFdr, g.nodes[k]).Failure? {
      TableUpToFailure(g, emb, srd, hgncid, alphaFdr, k + 1, |g.nodes|);
    }
  }

  /** The sorted table when the node loop succeeds, its exception when it
      fails. */
  lemma ReplicateTableOf(g: Graph, emb: Embedding, srd: NullDist.NullDistribution,
                         hgncid: seq<string>, alphaFdr: real)
    requires ValidGraph(g)
    ensures var t := TableUpTo(g, emb, srd, hgncid, alphaFdr, |g.nodes|);
      ReplicateTable(g, emb, srd, hgncid, alphaFdr)
        == if t.Success? then Success(SortReplicate(hgncid, t.value)) else Failure(t.error)
  {
  }

  /** Once every replicate has its table, the run's output is the sorted
      summary of their merge, and table q-1 is replicate q's. */
  lemma OutputFromTables(g: Graph, nvs: seq<Embedding>, srd: NullDist.NullDistribution,
                         hgncid: seq<string>, alphaFdr: real, tables: seq<seq<RepRow>>)
    requires ValidGraph(g) && |nvs| >= 1
    requires AllTables(g, nvs, srd, hgncid, alphaFdr, |nvs|) == Success(tables)
    ensures |tables| == |nvs|
    ensures Aggregate.GenerateOutput(g, nvs, srd, hgncid, alphaFdr)
         == Success(SortOutput(hgncid, Summarize(MergeUpTo(tables, |nvs|), |nvs|)))
    ensures forall q :: 0 <= q < |nvs| ==>
      ReplicateTable(g, nvs[q], srd, hgncid, alphaFdr) == Success(tables[q])
  {
    AllTablesSpec(g, nvs, srd, hgncid, alphaFdr, |nvs|);
  }

  /** `outdfs[q]` holds table q-1 for every replicate q scored so far. */
  ghost predicate Holds(outdfs: map<nat, seq<RepRow>>, tables: seq<seq<RepRow>>)
  {
    forall q :: 1 <= q <= |tables| ==> q in outdfs && outdfs[q] == tables[q - 1]
  }

  /** Storing the next replicate's table keeps the earlier ones. */
  lemma HoldsStep(outdfs: map<nat, seq<RepRow>>, tables: seq<seq<RepRow>>, t: seq<RepRow>)
    requires Holds(outdfs, tables)
    ensures Holds(outdfs[|tables| + 1 := t], tables + [t])
  {
  }

  class GeneWalk {
    const graph: Graph
    /** `GO_nodes`: the nodes with a 'GO' attribute. */
    const goNodes: set<string>
    /** `nv`: the node vectors of the replicate being scored. */
    var nv: Embedding
    /** `srd`: the null distributions, keyed by bucket. */
    const srd: NullDist.NullDistribution
    /** `outdfs[rep]` for the replicates 1..Nreps. */
    var outdfs: map<nat, seq<RepRow>>
    /** `outdfs[Nreps+1]` while the replicates are merged into it. */
    var merged: seq<MergedRow>
    /** `outdfs[Nreps+1]` once the statistics are in and it is sorted. */
    var summary: seq<OutRow>

    ghost predicate Valid()
    {
      ValidGraph(graph) && goNodes == GoNodes(graph)
    }

    constructor (graph: Graph, nullDist: NullDist.NullDistribution)
      requires ValidGraph(graph)
      ensures Valid()
      ensures this.graph == graph && srd == nullDist
      ensures nv == map[] && outdfs == map[] && merged == [] && summary == []
    {
      this.graph := graph;
      this.goNodes := set n | n in graph.data && graph.data[n].goFlag;
      this.nv := map[];
      this.srd := nullDist;
      this.outdfs := map[];
      this.merged := [];
      this.summary := [];
    }

    /** One pass of the loop of `get_GO_df`: `N_con(GO)` is taken first,
        then the 'name' attribute (a KeyError when missing) and `P_sim` on
        the smaller of the two degrees. */
    method ScoreCandidate(geneoi: string, nGeneCon: nat, e: Neighbour) returns (nGoCon: nat, r: Result<Scored>)
      requires Valid() && geneoi in graph.adj && nGeneCon == Degree(graph, geneoi)
      requires e.node in GoNeighbours(graph, geneoi)
      ensures r == ScoreOne(graph, srd, geneoi, nGeneCon, e)
      ensures r.Success? ==> nGoCon == r.value.nGoCon
    {
      GoNeighbourDegrees(graph, geneoi, e.node);
      nGoCon := |graph.adj[e.node]|;
      match graph.data[e.node].name {
        case None =>
          r := Failure(KeyError);
        case Some(d) =>
          var nCon := if nGoCon <= nGeneCon then nGoCon else nGeneCon;
          var pval := NullDist.PSim(srd, e.similarity, nCon);
          if pval.Failure? {
            r := Failure(pval.error);
          } else {
            r := Success(Scored(d, e.node, nGoCon, e.similarity, pval.value));
          }
      }
    }

    /** One pass of the loop with its effect on the three lists: `N_GO_CON`
        grows before the candidate is scored, `DES` and `PVAL` after. */
    method ScoreAppend(geneoi: string, nGeneCon: nat, simdf: seq<Neighbour>, i: nat,
                       descs: seq<string>, nGoCons: seq<nat>, pvals: seq<real>)
      returns (failure: Option<Error>, descs': seq<string>, nGoCons': seq<nat>, pvals': seq<real>)
      requires Valid() && geneoi in graph.adj && nGeneCon == Degree(graph, geneoi)
      requires forall j :: 0 <= j < |simdf| ==> simdf[j].node in GoNeighbours(graph, geneoi)
      requires i < |simdf| && |descs| == |nGoCons| == |pvals| == i
      requires CollectUpTo(ScoreResults(graph, srd, geneoi, nGeneCon, simdf), i)
            == Success(Assemble(simdf[..i], descs, nGoCons, pvals))
      ensures failure.Some? ==> ScoreAll(graph, srd, geneoi, nGeneCon, simdf) == Failure(failure.value)
      ensures failure.None? ==> |descs'| == |nGoCons'| == |pvals'| == i + 1
      ensures failure.None? ==>
        CollectUpTo(ScoreResults(graph, srd, geneoi, nGeneCon, simdf), i + 1)
          == Success(Assemble(simdf[..i + 1], descs', nGoCons', pvals'))
    {
      ScoreStep(graph, srd, geneoi, nGeneCon, simdf, i, descs, nGoCons, pvals);
      var nGoCon, one := ScoreCandidate(geneoi, nGeneCon, simdf[i]);
      nGoCons' := nGoCons + [nGoCon];
      descs', pvals' := descs, pvals;
      if one.Failure? {
        return Some(one.error), descs', nGoCons', pvals';
      }
      descs' := descs + [one.value.description];
      pvals' := pvals + [one.value.pval];
      failure := None;
    }

    /** The loop of `get_GO_df` over the candidate GO terms `simdf`: it
        fills `N_GO_CON`, `DES` and `PVAL` one candidate at a time and stops
        at the first exception. */
    method ScoreCandidates(geneoi: string, nGeneCon: nat, simdf: seq<Neighbour>)
      returns (r: Result<seq<Scored>>, descs: seq<string>, nGoCons: seq<nat>, pvals: seq<real>)
      requires Valid() && geneoi in graph.adj && nGeneCon == Degree(graph, geneoi)
      requires forall j :: 0 <= j < |simdf| ==> simdf[j].node in GoNeighbours(graph, geneoi)
      ensures r == ScoreAll(graph, srd, geneoi, nGeneCon, simdf)
      ensures r.Success? ==> |descs| == |nGoCons| == |pvals| == |simdf|
      ensures r.Success? ==> r.value == Assemble(simdf, descs, nGoCons, pvals)
    {
      nGoCons, pvals, descs := [], [], [];
      var i := 0;
      while i < |simdf|
        invariant 0 <= i <= |simdf|
        invariant |nGoCons| == |pvals| == |descs| == i
        invariant CollectUpTo(ScoreResults(graph, srd, geneoi, nGeneCon, simdf), i)
               == Success(Assemble(simdf[..i], descs, nGoCons, pvals))
      {
        var failure;
        failure, descs, nGoCons, pvals := ScoreAppend(geneoi, nGeneCon, simdf, i, descs, nGoCons, pvals);
        if failure.Some? {
          return Failure(failure.value), descs, nGoCons, pvals;
        }
        i := i + 1;
      }
      assert simdf[..|simdf|] == simdf;
      r := Success(Assemble(simdf, descs, nGoCons, pvals));
    }

    /** `get_GO_df(geneoi, N_gene_con, alpha_FDR)`: the candidates are the
        gene's GO neighbours in its ranking; once the loop has scored them
        all, the BH column is computed and, below alpha_FDR = 1, the table
        is filtered. */
    method GetGODf(geneoi: string, nGeneCon: nat, alphaFdr: real) returns (r: Result<seq<GORow>>)
      requires Valid() && geneoi in graph.adj && nGeneCon == Degree(graph, geneoi)
      ensures r == GODf(graph, nv, srd, geneoi, nGeneCon, alphaFdr)
    {
      var goCon2Gene := graph.adj[geneoi] * goNodes;
      if geneoi !in nv {
        return Failure(KeyError);
      }
      var simdf := Filter(nv[geneoi], (e: Neighbour) => e.node in goCon2Gene);
      FilterSamePredicate(nv[geneoi], (e: Neighbour) => e.node in goCon2Gene,
                          (e: Neighbour) => e.node in GoNeighbours(graph, geneoi));
      assert simdf == Candidates(graph, geneoi, nv[geneoi]);
      CandidatesMembership(graph, geneoi, nv[geneoi]);
      var scored, descs, nGoCons, pvals := ScoreCandidates(geneoi, nGeneCon, simdf);
      if scored.Failure? {
        return Failure(scored.error);
      }
      GODfFromScored(graph, nv, srd, geneoi, nGeneCon, alphaFdr, scored.value);
      assert PValues(scored.value) == pvals;
      var qVal := Fdr.Adjust(pvals);
      var rows := seq(|simdf|, j requires 0 <= j < |simdf| =>
        GORow(descs[j], simdf[j].node, nGoCons[j], simdf[j].similarity, pvals[j], qVal[j]));
      assert rows == WithPadj(scored.value);
      if alphaFdr < 1.0 {
        r := Success(Filter(rows, (row: GORow) => row.padj < alphaFdr));
      } else {
        r := Success(rows);
      }
    }

    /** The body of the node loop, `try` and `except KeyError: pass`
        included: the rows a node contributes to its replicate's table. */
    method NodeBlock(n: string, hgncid: seq<string>, alphaFdr: real) returns (r: Result<seq<RepRow>>)
      requires Valid() && n in graph.adj
      ensures r == NodeRows(graph, nv, srd, hgncid, alphaFdr, n)
    {
      match graph.data[n].hgnc {
        case None =>
          r := Success([]);
        case Some(h) =>
          if h in hgncid {
            var nGeneCon := |graph.adj[n]|;
            var godf := GetGODf(n, nGeneCon, alphaFdr);
            if godf.Success? {
              r := Success(GeneRows(h, n, nGeneCon, godf.value));
            } else if godf.error == KeyError {
              r := Success([]);
            } else {
              r := Failure(godf.error);
            }
          } else {
            r := Success([]);
          }
      }
    }

    /** One pass of the node loop for replicate rep: the block of node k,
        `try` included, is appended to `outdfs[rep]`; an exception other
        than KeyError is returned and ends the replicate. */
    method AppendNode(rep: nat, k: nat, hgncid: seq<string>, alphaFdr: real) returns (e: Option<Error>)
      requires Valid() && k < |graph.nodes| && rep in outdfs
      requires TableUpTo(graph, nv, srd, hgncid, alphaFdr, k) == Success(outdfs[rep])
      modifies this`outdfs
      ensures rep in outdfs && outdfs == old(outdfs)[rep := outdfs[rep]]
      ensures e.None? ==> TableUpTo(graph, nv, srd, hgncid, alphaFdr, k + 1) == Success(outdfs[rep])
      ensures e.Some? ==> TableUpTo(graph, nv, srd, hgncid, alphaFdr, |graph.nodes|) == Failure(e.value)
    {
      var block := NodeBlock(graph.nodes[k], hgncid, alphaFdr);
      NodeStep(graph, nv, srd, hgncid, alphaFdr, k, outdfs[rep]);
      if block.Failure? {
        return Some(block.error);
      }
      outdfs := outdfs[rep := outdfs[rep] + block.value];
      e := None;
    }

    /** The loop over the graph's nodes for replicate rep: each gene of the
        input list gets its get_GO_df rows appended to `outdfs[rep]`; a
        KeyError skips the node. The table is then sorted. */
    method ScoreReplicate(rep: nat, hgncid: seq<string>, alphaFdr: real) returns (r: Result<seq<RepRow>>)
      requires Valid()
      modifies this`outdfs
      ensures r == ReplicateTable(graph, nv, srd, hgncid, alphaFdr)
      ensures rep in outdfs && outdfs == old(outdfs)[rep := outdfs[rep]]
      ensures r.Success? ==> outdfs[rep] == r.value
    {
      ReplicateTableOf(graph, nv, srd, hgncid, alphaFdr);
      outdfs := outdfs[rep := []];
      ghost var table: seq<RepRow> := [];
      var k := 0;
      while k < |graph.nodes|
        invariant k <= |graph.nodes|
        invariant outdfs == old(outdfs)[rep := table]
        invariant TableUpTo(graph, nv, srd, hgncid, alphaFdr, k) == Success(table)
      {
        var e := AppendNode(rep, k, hgncid, alphaFdr);
        table := outdfs[rep];
        if e.Some? {
          return Failure(e.value);
        }
        k := k + 1;
      }
      outdfs := outdfs[rep := SortReplicate(hgncid, outdfs[rep])];
      r := Success(outdfs[rep]);
    }

    /** `outdfs[1]`, ..., `outdfs[nreps]` as a sequence of tables. */
    ghost function Replicates(nreps: nat): (tables: seq<seq<RepRow>>)
      reads this`outdfs
      requires forall q :: 1 <= q <= nreps ==> q in outdfs
      ensures |tables| == nreps && forall q :: 1 <= q <= nreps ==> tables[q - 1] == outdfs[q]
    {
      var tables := outdfs;
      seq(nreps, i requires 0 <= i < nreps => tables[i + 1])
    }

    /** One pass of the replicate loop: load replicate rep's node vectors
        and score them into `outdfs[rep]`. */
    method RunReplicate(rep: nat, alphaFdr: real, hgncid: seq<string>, nvs: seq<Embedding>,
                        ghost tables: seq<seq<RepRow>>) returns (t: Result<seq<RepRow>>)
      requires Valid() && 1 <= rep <= |nvs| && |tables| == rep - 1
      requires AllTables(graph, nvs, srd, hgncid, alphaFdr, rep - 1) == Success(tables)
      requires Holds(outdfs, tables)
      modifies this`nv, this`outdfs
      ensures t.Failure? ==> AllTables(graph, nvs, srd, hgncid, alphaFdr, |nvs|) == Failure(t.error)
      ensures t.Success? ==> AllTables(graph, nvs, srd, hgncid, alphaFdr, rep) == Success(tables + [t.value])
      ensures t.Success? ==> Holds(outdfs, tables + [t.value])
      ensures nv == nvs[rep - 1]
      ensures forall q :: q in old(outdfs) && q != rep ==> q in outdfs && outdfs[q] == old(outdfs)[q]
    {
      nv := nvs[rep - 1];
      AllTablesStep(graph, nvs, srd, hgncid, alphaFdr, rep - 1, tables);
      ghost var before := outdfs;
      t := ScoreReplicate(rep, hgncid, alphaFdr);
      if t.Success? {
        HoldsStep(before, tables, t.value);
      }
    }

    /** The replicate loop of `generate_output`: the node vectors of
        replicate rep, loaded from disk in the program, are nvs[rep-1]. A
        replicate that fails ends the run with its error. */
    method ScoreReplicates(alphaFdr: real, hgncid: seq<string>, nvs: seq<Embedding>) returns (e: Option<Error>)
      requires Valid()
      modifies this`nv, this`outdfs
      ensures Valid()
      ensures e.Some? ==> AllTables(graph, nvs, srd, hgncid, alphaFdr, |nvs|) == Failure(e.value)
      ensures e.None? ==> forall q :: 1 <= q <= |nvs| ==> q in outdfs
      ensures e.None? ==> AllTables(graph, nvs, srd, hgncid, alphaFdr, |nvs|) == Success(Replicates(|nvs|))
      ensures |nvs| == 0 ==> outdfs == old(outdfs)
      ensures e.None? && |nvs| >= 1 ==> nv == nvs[|nvs| - 1]
      ensures forall q :: q in old(outdfs) && !(1 <= q <= |nvs|) ==> q in outdfs && outdfs[q] == old(outdfs)[q]
    {
      ghost var tables: seq<seq<RepRow>> := [];
      var rep := 1;
      while rep <= |nvs|
        invariant 1 <= rep <= |nvs| + 1 && |tables| == rep - 1
        invariant AllTables(graph, nvs, srd, hgncid, alphaFdr, rep - 1) == Success(tables)
        invariant Holds(outdfs, tables)
        invariant rep == 1 ==> outdfs == old(outdfs)
        invariant rep > 1 ==> nv == nvs[rep - 2]
        invariant forall q :: q in old(outdfs) && !(1 <= q < rep) ==> q in outdfs && outdfs[q] == old(outdfs)[q]
      {
        var t := RunReplicate(rep, alphaFdr, hgncid, nvs, tables);
        if t.Failure? {
          return Some(t.error);
        }
        tables := tables + [t.value];
        rep := rep + 1;
      }
      assert tables == Replicates(|nvs|);
      e := None;
    }

    /** `outdfs[Nreps+1] = copy.deepcopy(outdfs[1])` followed by the outer
        merge of `outdfs[2]`, ..., `outdfs[Nreps]` into it. */
    method MergeReplicates(nreps: nat)
      requires 1 <= nreps && forall q :: 1 <= q <= nreps ==> q in outdfs
      modifies this`merged
      ensures merged == MergeUpTo(Replicates(nreps), nreps)
    {
      ghost var tables := Replicates(nreps);
      var tabs := outdfs;
      assert tabs[1] == tables[0];
      FirstMergedIsMerge(tabs[1]);
      merged := FirstMerged(tabs[1]);
      var rep := 2;
      while rep <= nreps
        invariant 2 <= rep <= nreps + 1
        invariant merged == MergeUpTo(tables, rep - 1)
      {
        assert tabs[rep] == tables[rep - 1];
        merged := MergeStep(merged, rep - 1, tabs[rep]);
        rep := rep + 1;
      }
    }

    /** `generate_output` for human genes: the replicates are scored into
        `outdfs[rep]`, merged into `outdfs[Nreps+1]` (`merged`), and the
        mean and SEM columns are added and the table sorted (`summary`).
        With Nreps = 0 no loop runs, so the column list `COLUMNS` is never
        assigned: a table `outdfs[1]` left by an earlier call is copied onto
        itself and reading `len(COLUMNS)` raises UnboundLocalError. */
    method GenerateOutput(alphaFdr: real, hgncid: seq<string>, nvs: seq<Embedding>) returns (r: Result<seq<OutRow>>)
      requires Valid()
      modifies this`nv, this`outdfs, this`merged, this`summary
      ensures |nvs| == 0 && 1 in old(outdfs) ==> r == Failure(UnboundLocalError)
      ensures !(|nvs| == 0 && 1 in old(outdfs)) ==> r == Aggregate.GenerateOutput(graph, nvs, srd, hgncid, alphaFdr)
      ensures |nvs| == 0 ==> outdfs == old(outdfs)
      ensures r.Success? ==> summary == r.value
      ensures r.Success? ==> forall q :: 1 <= q <= |nvs| ==> q in outdfs
      ensures r.Success? ==> AllTables(graph, nvs, srd, hgncid, alphaFdr, |nvs|) == Success(Replicates(|nvs|))
      ensures r.Success? ==> merged == MergeUpTo(Replicates(|nvs|), |nvs|)
      ensures r.Failure? ==> merged == old(merged) && summary == old(summary)
      ensures |nvs| >= 1 && r.Success? ==> nv == nvs[|nvs| - 1]
    {
      var e := ScoreReplicates(alphaFdr, hgncid, nvs);
      if e.Some? {
        return Failure(e.value);
      }
      if 1 !in outdfs {
        return Failure(KeyError);
      }
      if |nvs| == 0 {
        return Failure(UnboundLocalError);
      }
      ghost var tables := Replicates(|nvs|);
      OutputFromTables(graph, nvs, srd, hgncid, alphaFdr, tables);
      MergeReplicates(|nvs|);
      assert merged == MergeUpTo(tables, |nvs|);
      summary := SortOutput(hgncid, Summarize(merged, |nvs|));
      r := Success(summary);
    }
  }
}
