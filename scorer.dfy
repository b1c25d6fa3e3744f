/** `GeneWalk.get_GO_df` (genewalk/perform_statistics.py:229-261): score one
    gene of one replicate against the GO terms it is connected to. */
module Scorer {
  import opened Wrappers
  import opened Seqs
  import opened Network
  import NullDist
  import Fdr

  /** One entry of a replicate's `most_similar` answer. */
  datatype Neighbour = Neighbour(node: string, similarity: real)

  /** A replicate's node vectors, reduced to what the scorer asks of them:
      for each word of the vocabulary, every other word with its similarity
      (`most_similar(word, topn=len(vocab))`). */
  type Embedding = map<string, seq<Neighbour>>

  ghost predicate Descending(r: seq<Neighbour>)
  {
    forall i, j :: 0 <= i <= j < |r| ==> r[j].similarity <= r[i].similarity
  }

  /** What gensim's answer guarantees: descending similarity, each node once. */
  ghost predicate ValidRanking(r: seq<Neighbour>)
  {
    && Descending(r)
    && (forall i, j :: 0 <= i < j < |r| ==> r[i].node != r[j].node)
  }

  /** A row of the data frame `get_GO_df` returns. */
  datatype GORow = GORow(description: string, goId: string, nGoCon: nat,
                         similarity: real, pval: real, padj: real)

  /** A candidate scored before the FDR correction. */
  datatype Scored = Scored(description: string, goId: string, nGoCon: nat,
                           similarity: real, pval: real)

  /** `simdf[simdf['GO:ID'].isin(GO_con2gene)]`: the ranked nodes that are GO
      terms adjacent to the gene, in ranking order. */
  function Candidates(g: Graph, gene: string, ranking: seq<Neighbour>): seq<Neighbour>
    requires gene in g.adj
  {
    Filter(ranking, (e: Neighbour) => e.node in GoNeighbours(g, gene))
  }

  lemma CandidatesMembership(g: Graph, gene: string, ranking: seq<Neighbour>)
    requires gene in g.adj
    ensures forall e :: e in Candidates(g, gene, ranking) <==> e in ranking && e.node in GoNeighbours(g, gene)
    ensures forall i :: 0 <= i < |Candidates(g, gene, ranking)| ==>
              Candidates(g, gene, ranking)[i].node in GoNeighbours(g, gene)
  {
    FilterMembership(ranking, (e: Neighbour) => e.node in GoNeighbours(g, gene));
  }

  /** One pass of the loop body: N_con(GO), the 'name' attribute (a KeyError
      when missing) and P_sim on the smaller of the two degrees. */
  function ScoreOne(g: Graph, srd: NullDist.NullDistribution, gene: string, nGeneCon: nat,
                    e: Neighbour): (r: Result<Scored>)
    requires ValidGraph(g) && gene in g.adj && nGeneCon == Degree(g, gene)
    requires e.node in GoNeighbours(g, gene)
    ensures r.Success? ==> r.value.goId == e.node && r.value.similarity == e.similarity
    ensures r.Success? ==> r.value.nGoCon == Degree(g, e.node) && 0.0 <= r.value.pval <= 1.0
    ensures r.Success? ==> Some(r.value.description) == g.data[e.node].name
  {
    GoNeighbourDegrees(g, gene, e.node);
    var nGoCon := Degree(g, e.node);
    match g.data[e.node].name
    case None => Failure(KeyError)
    case Some(description) =>
      var nCon := if nGoCon <= nGeneCon then nGoCon else nGeneCon;
      var p := NullDist.PSim(srd, e.similarity, nCon);
      if p.Failure? then Failure(p.error)
      else Success(Scored(description, e.node, nGoCon, e.similarity, p.value))
  }

  /** The outcome of the loop body for each candidate, in ranking order. */
  function ScoreResults(g: Graph, srd: NullDist.NullDistribution, gene: string, nGeneCon: nat,
                        cands: seq<Neighbour>): (rs: seq<Result<Scored>>)
    requires ValidGraph(g) && gene in g.adj && nGeneCon == Degree(g, gene)
    requires forall i :: 0 <= i < |cands| ==> cands[i].node in GoNeighbours(g, gene)
    ensures |rs| == |cands|
  {
    seq(|cands|, i requires 0 <= i < |cands| => ScoreOne(g, srd, gene, nGeneCon, cands[i]))
  }

  /** The loop over the candidates, stopped by the first exception. */
  function ScoreAll(g: Graph, srd: NullDist.NullDistribution, gene: string, nGeneCon: nat,
                    cands: seq<Neighbour>): (r: Result<seq<Scored>>)
    requires ValidGraph(g) && gene in g.adj && nGeneCon == Degree(g, gene)
    requires forall i :: 0 <= i < |cands| ==> cands[i].node in GoNeighbours(g, gene)
    ensures r.Success? ==> |r.value| == |cands|
  {
    var rs := ScoreResults(g, srd, gene, nGeneCon, cands);
    CollectSpec(rs, |cands|);
    CollectUpTo(rs, |cands|)
  }

  function PValues(scored: seq<Scored>): (ps: seq<real>)
    ensures |ps| == |scored|
    ensures forall i :: 0 <= i < |scored| ==> ps[i] == scored[i].pval
  {
    seq(|scored|, i requires 0 <= i < |scored| => scored[i].pval)
  }

  /** Insert the 'padj' column: the BH q-values of this gene's p-values. */
  function WithPadj(scored: seq<Scored>): (rows: seq<GORow>)
    ensures |rows| == |scored|
  {
    var qs := Fdr.Adjust(PValues(scored));
    seq(|scored|, i requires 0 <= i < |scored| =>
      GORow(scored[i].description, scored[i].goId, scored[i].nGoCon,
            scored[i].similarity, scored[i].pval, qs[i]))
  }

  /** `get_GO_df(geneoi, N_gene_con, alpha_FDR)`. A gene without a vector is
      gensim's KeyError. With alpha_FDR < 1 only the rows with padj < alpha_FDR
      are returned. */
  function GODf(g: Graph, emb: Embedding, srd: NullDist.NullDistribution, gene: string,
                nGeneCon: nat, alphaFdr: real): (r: Result<seq<GORow>>)
    requires ValidGraph(g) && gene in g.adj && nGeneCon == Degree(g, gene)
    ensures gene !in emb ==> r == Failure(KeyError)
  {
    if gene !in emb then Failure(KeyError)
    else
      var cands := Candidates(g, gene, emb[gene]);
      CandidatesMembership(g, gene, emb[gene]);
      var scored :- ScoreAll(g, srd, gene, nGeneCon, cands);
      var rows := WithPadj(scored);
      if alphaFdr < 1.0 then Success(Filter(rows, (row: GORow) => row.padj < alphaFdr))
      else Success(rows)
  }

  /** The loop succeeds exactly when every candidate scores, and then the
      i-th scored row is the i-th candidate's. */
  lemma ScoreAllSuccess(g: Graph, srd: NullDist.NullDistribution, gene: string,
                        nGeneCon: nat, cands: seq<Neighbour>)
    requires ValidGraph(g) && gene in g.adj && nGeneCon == Degree(g, gene)
    requires forall i :: 0 <= i < |cands| ==> cands[i].node in GoNeighbours(g, gene)
    ensures ScoreAll(g, srd, gene, nGeneCon, cands).Success?
        <==> forall i :: 0 <= i < |cands| ==> ScoreOne(g, srd, gene, nGeneCon, cands[i]).Success?
    ensures ScoreAll(g, srd, gene, nGeneCon, cands).Success? ==>
      forall i :: 0 <= i < |cands| ==>
        ScoreAll(g, srd, gene, nGeneCon, cands).value[i] == ScoreOne(g, srd, gene, nGeneCon, cands[i]).value
  {
    var rs := ScoreResults(g, srd, gene, nGeneCon, cands);
    CollectSpec(rs, |cands|);
    assert forall i :: 0 <= i < |cands| ==> rs[i] == ScoreOne(g, srd, gene, nGeneCon, cands[i]);
  }

  /** When the loop fails, the exception is that of the first candidate
      that fails; the candidates before it all scored. */
  lemma ScoreAllFirstFailure(g: Graph, srd: NullDist.NullDistribution, gene: string,
                             nGeneCon: nat, cands: seq<Neighbour>)
    requires ValidGraph(g) && gene in g.adj && nGeneCon == Degree(g, gene)
    requires forall i :: 0 <= i < |cands| ==> cands[i].node in GoNeighbours(g, gene)
    requires ScoreAll(g, srd, gene, nGeneCon, cands).Failure?
    ensures exists k :: 0 <= k < |cands| &&
              ScoreOne(g, srd, gene, nGeneCon, cands[k]) == Failure(ScoreAll(g, srd, gene, nGeneCon, cands).error) &&
              forall j :: 0 <= j < k ==> ScoreOne(g, srd, gene, nGeneCon, cands[j]).Success?
  {
    var rs := ScoreResults(g, srd, gene, nGeneCon, cands);
    CollectFirstFailure(rs, |cands|);
    assert forall i :: 0 <= i < |cands| ==> rs[i] == ScoreOne(g, srd, gene, nGeneCon, cands[i]);
  }

  /** A descending ranking stays descending once filtered. */
  lemma {:induction false} FilterKeepsDescending(r: seq<Neighbour>, p: Neighbour -> bool)
    requires Descending(r)
    ensures Descending(Filter(r, p))
  {
    if r != [] {
      var init := r[..|r| - 1];
      var last := r[|r| - 1];
      assert Descending(init);
      FilterKeepsDescending(init, p);
      FilterMembership(init, p);
      var fi := Filter(init, p);
      if p(last) {
        var f := fi + [last];
        assert Filter(r, p) == f;
        forall i, j | 0 <= i <= j < |f|
          ensures f[j].similarity <= f[i].similarity
        {
          if j == |fi| && i < |fi| {
            assert fi[i] in init;
            var k :| 0 <= k < |init| && init[k] == fi[i];
            assert r[k] == fi[i];
          } else if j < |fi| {
            assert f[i] == fi[i] && f[j] == fi[j];
          }
        }
      } else {
        assert Filter(r, p) == fi;
      }
    }
  }

  /** With alpha_FDR >= 1 the rows are exactly the GO terms adjacent to the
      gene, in the ranking's descending-similarity order, each with its
      similarity, N_con(GO), 'name', its P_sim p-value on the bucket
      floor(log2 min(N_con(GO), N_con(gene))) and its BH q-value over this
      gene's p-values alone, with p <= q <= 1. */
  lemma GODfRows(g: Graph, emb: Embedding, srd: NullDist.NullDistribution, gene: string,
                 nGeneCon: nat, alphaFdr: real)
    requires ValidGraph(g) && gene in g.adj && nGeneCon == Degree(g, gene)
    requires alphaFdr >= 1.0
    requires GODf(g, emb, srd, gene, nGeneCon, alphaFdr).Success?
    ensures gene in emb
    ensures var rows := GODf(g, emb, srd, gene, nGeneCon, alphaFdr).value;
      var cands := Candidates(g, gene, emb[gene]);
      && |rows| == |cands|
      && (forall i :: 0 <= i < |rows| ==>
            && rows[i].goId == cands[i].node
            && rows[i].goId in GoNeighbours(g, gene)
            && rows[i].similarity == cands[i].similarity
            && rows[i].nGoCon == Degree(g, rows[i].goId)
            && Some(rows[i].description) == g.data[rows[i].goId].name
            && NullDist.PSim(srd, rows[i].similarity, Min(rows[i].nGoCon, nGeneCon)) == Success(rows[i].pval)
            && rows[i].padj == Fdr.Adjust(PValuesOf(rows))[i]
            && 0.0 <= rows[i].pval <= rows[i].padj <= 1.0)
    ensures ValidRanking(emb[gene]) ==> Descending(Candidates(g, gene, emb[gene]))
  {
    var cands := Candidates(g, gene, emb[gene]);
    CandidatesMembership(g, gene, emb[gene]);
    ScoreAllSuccess(g, srd, gene, nGeneCon, cands);
    var scored := ScoreAll(g, srd, gene, nGeneCon, cands).value;
    assert GODf(g, emb, srd, gene, nGeneCon, alphaFdr).value == WithPadj(scored);
    WithPadjRows(scored);
    forall i | 0 <= i < |scored|
      ensures ScoredRow(g, srd, gene, nGeneCon, cands[i], scored[i])
    {
      ScoreOneRow(g, srd, gene, nGeneCon, cands[i]);
    }
    if ValidRanking(emb[gene]) {
      FilterKeepsDescending(emb[gene], (e: Neighbour) => e.node in GoNeighbours(g, gene));
    }
  }

  ghost predicate ScoredRow(g: Graph, srd: NullDist.NullDistribution, gene: string, nGeneCon: nat,
                            e: Neighbour, s: Scored)
    requires gene in g.adj
  {
    && s.goId == e.node
    && s.goId in GoNeighbours(g, gene)
    && s.goId in g.adj
    && s.similarity == e.similarity
    && s.nGoCon == Degree(g, s.goId)
    && s.goId in g.data
    && Some(s.description) == g.data[s.goId].name
    && s.nGoCon >= 1 && nGeneCon >= 1
    && NullDist.PSim(srd, s.similarity, Min(s.nGoCon, nGeneCon)) == Success(s.pval)
  }

  lemma ScoreOneRow(g: Graph, srd: NullDist.NullDistribution, gene: string, nGeneCon: nat, e: Neighbour)
    requires ValidGraph(g) && gene in g.adj && nGeneCon == Degree(g, gene)
    requires e.node in GoNeighbours(g, gene)
    requires ScoreOne(g, srd, gene, nGeneCon, e).Success?
    ensures ScoredRow(g, srd, gene, nGeneCon, e, ScoreOne(g, srd, gene, nGeneCon, e).value)
  {
    GoNeighbourDegrees(g, gene, e.node);
  }

  lemma WithPadjRows(scored: seq<Scored>)
    requires forall i :: 0 <= i < |scored| ==> 0.0 <= scored[i].pval <= 1.0
    ensures var rows := WithPadj(scored);
      && PValuesOf(rows) == PValues(scored)
      && forall i :: 0 <= i < |rows| ==>
           && rows[i].goId == scored[i].goId && rows[i].similarity == scored[i].similarity
           && rows[i].nGoCon == scored[i].nGoCon && rows[i].description == scored[i].description
           && rows[i].pval == scored[i].pval
           && rows[i].padj == Fdr.Adjust(PValues(scored))[i]
           && 0.0 <= rows[i].pval <= rows[i].padj <= 1.0
  {
    Fdr.AdjustBounds(PValues(scored));
  }

  function Min(a: nat, b: nat): nat
  {
    if a <= b then a else b
  }

  /** The 'pval' column of a table. */
  function PValuesOf(rows: seq<GORow>): (ps: seq<real>)
    ensures |ps| == |rows|
    ensures forall i :: 0 <= i < |rows| ==> ps[i] == rows[i].pval
  {
    seq(|rows|, i requires 0 <= i < |rows| => rows[i].pval)
  }

  /** The q-values never depend on alpha_FDR: any alpha_FDR >= 1 returns the
      full table, and an alpha_FDR below 1 returns exactly the rows of the
      full table with padj < alpha_FDR, in the same order; both fail alike.
      So filtering an alpha_FDR = 1 result at t is running with t. */
  lemma GODfAlpha(g: Graph, emb: Embedding, srd: NullDist.NullDistribution, gene: string,
                  nGeneCon: nat, alphaFdr: real)
    requires ValidGraph(g) && gene in g.adj && nGeneCon == Degree(g, gene)
    ensures var full := GODf(g, emb, srd, gene, nGeneCon, 1.0);
      var r := GODf(g, emb, srd, gene, nGeneCon, alphaFdr);
      && (r.Failure? <==> full.Failure?)
      && (r.Failure? ==> r.error == full.error)
      && (r.Success? && alphaFdr >= 1.0 ==> r.value == full.value)
      && (r.Success? && alphaFdr < 1.0 ==> r.value == Filter(full.value, (row: GORow) => row.padj < alphaFdr))
  {
  }

  /** Whatever alpha_FDR, every returned row has 0 <= pval <= padj <= 1,
      and with alpha_FDR < 1 also padj < alpha_FDR. */
  lemma GODfBounds(g: Graph, emb: Embedding, srd: NullDist.NullDistribution, gene: string,
                   nGeneCon: nat, alphaFdr: real)
    requires ValidGraph(g) && gene in g.adj && nGeneCon == Degree(g, gene)
    requires GODf(g, emb, srd, gene, nGeneCon, alphaFdr).Success?
    ensures var rows := GODf(g, emb, srd, gene, nGeneCon, alphaFdr).value;
      forall i :: 0 <= i < |rows| ==>
        && 0.0 <= rows[i].pval <= rows[i].padj <= 1.0
        && (alphaFdr < 1.0 ==> rows[i].padj < alphaFdr)
  {
    var cands := Candidates(g, gene, emb[gene]);
    CandidatesMembership(g, gene, emb[gene]);
    ScoreAllSuccess(g, srd, gene, nGeneCon, cands);
    var scored := ScoreAll(g, srd, gene, nGeneCon, cands).value;
    WithPadjRows(scored);
    var full := WithPadj(scored);
    if alphaFdr < 1.0 {
      var p := (row: GORow) => row.padj < alphaFdr;
      FilterMembership(full, p);
      var rows := Filter(full, p);
      forall i | 0 <= i < |rows|
        ensures 0.0 <= rows[i].pval <= rows[i].padj <= 1.0 && rows[i].padj < alphaFdr
      {
        var k := FilterSource(full, p, i);
      }
    }
  }
}
