/** The human-gene branch of `GeneWalk.generate_output`
    (genewalk/perform_statistics.py:93-216): one table per replicate, their
    outer merge on the identity columns, the mean and SEM columns, and the
    final sort. */
module Aggregate {
  import opened Wrappers
  import opened Seqs
  import opened Network
  import opened Scorer
  import NullDist
  import Lex
  import Sorting

  /** The identity columns the replicate tables are merged on:
      HGNC, Symbol, GO description, GO:ID, N_con(gene), N_con(GO). */
  datatype Key = Key(hgnc: string, symbol: string, description: string, goId: string,
                     nGeneCon: nat, nGoCon: nat)

  /** The per-replicate columns similarity, pval and padj. */
  datatype Measure = Measure(similarity: real, pval: real, padj: real)

  /** A row of a replicate table `outdfs[rep]`. */
  datatype RepRow = RepRow(key: Key, measure: Measure)

  /** One gene's `get_GO_df` with the columns HGNC, Symbol and N_con(gene)
      inserted. */
  function GeneRows(hgnc: string, symbol: string, nGeneCon: nat, rows: seq<GORow>): (r: seq<RepRow>)
    ensures |r| == |rows|
  {
    seq(|rows|, i requires 0 <= i < |rows| =>
      RepRow(Key(hgnc, symbol, rows[i].description, rows[i].goId, nGeneCon, rows[i].nGoCon),
             Measure(rows[i].similarity, rows[i].pval, rows[i].padj)))
  }

  /** One pass of the loop over the graph's nodes. A KeyError (no 'HGNC'
      attribute, no vector, no 'name', no null bucket) is swallowed and the
      node contributes nothing; any other exception ends the run. */
  function NodeRows(g: Graph, emb: Embedding, srd: NullDist.NullDistribution,
                    hgncid: seq<string>, alphaFdr: real, n: string): Result<seq<RepRow>>
    requires ValidGraph(g) && n in g.adj
  {
    match g.data[n].hgnc
    case None => Success([])
    case Some(h) =>
      if h !in hgncid then Success([])
      else
        match GODf(g, emb, srd, n, Degree(g, n), alphaFdr)
        case Failure(KeyError) => Success([])
        case Failure(e) => Failure(e)
        case Success(rows) => Success(GeneRows(h, n, Degree(g, n), rows))
  }

  /** The rows appended for the first k nodes of the graph. */
  function TableUpTo(g: Graph, emb: Embedding, srd: NullDist.NullDistribution,
                     hgncid: seq<string>, alphaFdr: real, k: nat): Result<seq<RepRow>>
    requires ValidGraph(g) && k <= |g.nodes|
  {
    if k == 0 then Success([])
    else
      var acc :- TableUpTo(g, emb, srd, hgncid, alphaFdr, k - 1);
      var more :- NodeRows(g, emb, srd, hgncid, alphaFdr, g.nodes[k - 1]);
      Success(acc + more)
  }

  /** `outdfs[rep]` for a replicate whose node vectors are emb: the rows of
      every node, sorted by gene position, Symbol and GO:ID. */
  function ReplicateTable(g: Graph, emb: Embedding, srd: NullDist.NullDistribution,
                          hgncid: seq<string>, alphaFdr: real): Result<seq<RepRow>>
    requires ValidGraph(g)
  {
    var rows :- TableUpTo(g, emb, srd, hgncid, alphaFdr, |g.nodes|);
    Success(SortReplicate(hgncid, rows))
  }

  /** a may precede b in a sorted replicate table (`sort_values(by=['HGNC',
      'Symbol', 'GO:ID'])` with HGNC categorical over the input list). */
  predicate ReplicateLe(hgncid: seq<string>, a: RepRow, b: RepRow)
  {
    var ra := Rank(hgncid, a.key.hgnc);
    var rb := Rank(hgncid, b.key.hgnc);
    || ra < rb
    || (ra == rb && Lex.Less(a.key.symbol, b.key.symbol))
    || (ra == rb && a.key.symbol == b.key.symbol && Lex.LessEq(a.key.goId, b.key.goId))
  }

  function SortReplicate(hgncid: seq<string>, rows: seq<RepRow>): (r: seq<RepRow>)
    ensures |r| == |rows|
  {
    Sorting.InsertionSort(rows, (a: RepRow, b: RepRow) => ReplicateLe(hgncid, a, b))
  }

  lemma ReplicateLeIsPreorder(hgncid: seq<string>)
    ensures Sorting.TotalPreorder((a: RepRow, b: RepRow) => ReplicateLe(hgncid, a, b))
  {
    var le := (a: RepRow, b: RepRow) => ReplicateLe(hgncid, a, b);
    forall a: RepRow, b: RepRow
      ensures le(a, b) || le(b, a)
    {
      Lex.LessTotal(a.key.symbol, b.key.symbol);
      Lex.LessTotal(a.key.goId, b.key.goId);
    }
    forall a: RepRow, b: RepRow, c: RepRow | le(a, b) && le(b, c)
      ensures le(a, c)
    {
      var sa, sb, sc := a.key.symbol, b.key.symbol, c.key.symbol;
      var ga, gb, gc := a.key.goId, b.key.goId, c.key.goId;
      if Lex.Less(sa, sb) && Lex.Less(sb, sc) {
        Lex.LessTransitive(sa, sb, sc);
      }
      if Lex.Less(ga, gb) && Lex.Less(gb, gc) {
        Lex.LessTransitive(ga, gb, gc);
      }
    }
  }

  /** The sorted table is ordered and holds the same rows; distinct
      identities stay distinct. */
  lemma SortReplicateSpec(hgncid: seq<string>, rows: seq<RepRow>)
    ensures Sorting.SortedBy(SortReplicate(hgncid, rows), (a: RepRow, b: RepRow) => ReplicateLe(hgncid, a, b))
    ensures multiset(SortReplicate(hgncid, rows)) == multiset(rows)
    ensures DistinctBy(rows, KeyOf) ==> DistinctBy(SortReplicate(hgncid, rows), KeyOf)
  {
    ReplicateLeIsPreorder(hgncid);
    Sorting.InsertionSortSpec(rows, (a: RepRow, b: RepRow) => ReplicateLe(hgncid, a, b));
    if DistinctBy(rows, KeyOf) {
      PermutationKeepsDistinct(rows, SortReplicate(hgncid, rows), KeyOf);
    }
  }

  function KeyOf(r: RepRow): Key { r.key }

  /** Every row of a node's block names that node as Symbol, carries an HGNC
      id from the input list and the node's degree as N_con(gene), and no two
      rows share a GO:ID. */
  lemma NodeRowsShape(g: Graph, emb: Embedding, srd: NullDist.NullDistribution,
                      hgncid: seq<string>, alphaFdr: real, n: string)
    requires ValidGraph(g) && n in g.adj
    requires forall x :: x in emb ==> ValidRanking(emb[x])
    requires NodeRows(g, emb, srd, hgncid, alphaFdr, n).Success?
    ensures var rows := NodeRows(g, emb, srd, hgncid, alphaFdr, n).value;
      && (forall i :: 0 <= i < |rows| ==>
            rows[i].key.symbol == n && rows[i].key.hgnc in hgncid
            && Some(rows[i].key.hgnc) == g.data[n].hgnc
            && rows[i].key.nGeneCon == Degree(g, n))
      && (forall i, j :: 0 <= i < j < |rows| ==> rows[i].key.goId != rows[j].key.goId)
  {
    match g.data[n].hgnc
    case None =>
    case Some(h) =>
      if h in hgncid {
        var r := GODf(g, emb, srd, n, Degree(g, n), alphaFdr);
        if r.Success? {
          GODfDistinct(g, emb, srd, n, Degree(g, n), alphaFdr);
        }
      }
  }

  /** The GO:IDs of a `get_GO_df` table are pairwise different, because a
      ranking names each node once. */
  lemma GODfDistinct(g: Graph, emb: Embedding, srd: NullDist.NullDistribution, gene: string,
                     nGeneCon: nat, alphaFdr: real)
    requires ValidGraph(g) && gene in g.adj && nGeneCon == Degree(g, gene)
    requires gene in emb ==> ValidRanking(emb[gene])
    requires GODf(g, emb, srd, gene, nGeneCon, alphaFdr).Success?
    ensures DistinctBy(GODf(g, emb, srd, gene, nGeneCon, alphaFdr).value, (r: GORow) => r.goId)
  {
    var full := GODf(g, emb, srd, gene, nGeneCon, 1.0);
    GODfAlpha(g, emb, srd, gene, nGeneCon, alphaFdr);
    GODfRows(g, emb, srd, gene, nGeneCon, 1.0);
    var ranking := emb[gene];
    var p := (e: Neighbour) => e.node in GoNeighbours(g, gene);
    assert DistinctBy(ranking, (e: Neighbour) => e.node);
    FilterKeepsDistinct(ranking, p, (e: Neighbour) => e.node);
    assert DistinctBy(full.value, (r: GORow) => r.goId);
    if alphaFdr < 1.0 {
      FilterKeepsDistinct(full.value, (row: GORow) => row.padj < alphaFdr, (r: GORow) => r.goId);
    }
  }

  /** A replicate table names each identity tuple at most once, and every
      row belongs to a gene of the input list and to a node already visited. */
  lemma {:induction false} TableShape(g: Graph, emb: Embedding, srd: NullDist.NullDistribution,
                                      hgncid: seq<string>, alphaFdr: real, k: nat)
    requires ValidGraph(g) && k <= |g.nodes|
    requires forall x :: x in emb ==> ValidRanking(emb[x])
    requires TableUpTo(g, emb, srd, hgncid, alphaFdr, k).Success?
    ensures var rows := TableUpTo(g, emb, srd, hgncid, alphaFdr, k).value;
      && DistinctBy(rows, KeyOf)
      && forall i :: 0 <= i < |rows| ==> rows[i].key.symbol in g.nodes[..k] && rows[i].key.hgnc in hgncid
  {
    if k > 0 {
      TableShape(g, emb, srd, hgncid, alphaFdr, k - 1);
      var acc := TableUpTo(g, emb, srd, hgncid, alphaFdr, k - 1).value;
      var n := g.nodes[k - 1];
      var more := NodeRows(g, emb, srd, hgncid, alphaFdr, n).value;
      NodeRowsShape(g, emb, srd, hgncid, alphaFdr, n);
      assert TableUpTo(g, emb, srd, hgncid, alphaFdr, k).value == acc + more;
      assert g.nodes[..k] == g.nodes[..k - 1] + [n];
      assert n !in g.nodes[..k - 1] by {
        NodesDistinct(g);
      }
      AppendShape(acc, more, g.nodes[..k - 1], n, hgncid);
    }
  }

  /** Appending the block of a node not visited before to a table of
      visited nodes keeps the identities distinct. */
  lemma AppendShape(acc: seq<RepRow>, more: seq<RepRow>, visited: seq<string>, n: string,
                    hgncid: seq<string>)
    requires DistinctBy(acc, KeyOf)
    requires forall i :: 0 <= i < |acc| ==> acc[i].key.symbol in visited && acc[i].key.hgnc in hgncid
    requires forall i :: 0 <= i < |more| ==> more[i].key.symbol == n && more[i].key.hgnc in hgncid
    requires forall i, j :: 0 <= i < j < |more| ==> more[i].key.goId != more[j].key.goId
    requires n !in visited
    ensures DistinctBy(acc + more, KeyOf)
    ensures forall i :: 0 <= i < |acc + more| ==>
      (acc + more)[i].key.symbol in visited + [n] && (acc + more)[i].key.hgnc in hgncid
  {
    var rows := acc + more;
    forall i | 0 <= i < |rows|
      ensures rows[i].key.symbol in visited + [n] && rows[i].key.hgnc in hgncid
    {
      if i < |acc| {
        assert rows[i] == acc[i];
      } else {
        assert rows[i] == more[i - |acc|];
      }
    }
    forall i, j | 0 <= i < j < |rows|
      ensures KeyOf(rows[i]) != KeyOf(rows[j])
    {
      if j < |acc| {
        assert rows[i] == acc[i] && rows[j] == acc[j];
      } else if i >= |acc| {
        assert rows[i] == more[i - |acc|] && rows[j] == more[j - |acc|];
      } else {
        assert rows[i] == acc[i] && rows[j] == more[j - |acc|];
      }
    }
  }

  // ---------------------------------------------------------------------
  // The outer merge of the replicate tables on the identity columns.

  /** A row of the merged table: its identity and, per replicate, the
      measures of that replicate or NaN (None) where the replicate has no
      row with this identity. */
  datatype MergedRow = MergedRow(key: Key, reps: seq<Option<Measure>>)

  function MKey(m: MergedRow): Key { m.key }

  /** The measures a table holds for an identity, if it has a row for it. */
  function Lookup(t: seq<RepRow>, k: Key): Option<Measure>
  {
    if t == [] then None
    else if t[0].key == k then Some(t[0].measure)
    else Lookup(t[1..], k)
  }

  /** The lookup finds nothing exactly when no row has the identity, and
      otherwise the measures of a row with it. */
  lemma {:induction false} LookupSpec(t: seq<RepRow>, k: Key)
    ensures Lookup(t, k).None? <==> forall i :: 0 <= i < |t| ==> t[i].key != k
    ensures Lookup(t, k).Some? ==> exists i :: 0 <= i < |t| && t[i] == RepRow(k, Lookup(t, k).value)
  {
    if t != [] && t[0].key != k {
      LookupSpec(t[1..], k);
      assert forall i :: 1 <= i < |t| ==> t[i] == t[1..][i - 1];
      if Lookup(t, k).Some? {
        var i :| 0 <= i < |t[1..]| && t[1..][i] == RepRow(k, Lookup(t, k).value);
        assert t[i + 1] == t[1..][i];
      }
    }
  }

  /** In a table whose identities are distinct, the row for an identity is
      the one the lookup finds. */
  lemma LookupRow(t: seq<RepRow>, i: nat)
    requires DistinctBy(t, KeyOf) && i < |t|
    ensures Lookup(t, t[i].key) == Some(t[i].measure)
  {
    var r := Lookup(t, t[i].key);
    LookupSpec(t, t[i].key);
    var j :| 0 <= j < |t| && t[j] == RepRow(t[i].key, r.value);
    assert KeyOf(t[j]) == KeyOf(t[i]);
  }

  function TableKeys(t: seq<RepRow>): set<Key>
  {
    set i | 0 <= i < |t| :: t[i].key
  }

  function MergedKeys(m: seq<MergedRow>): set<Key>
  {
    set i | 0 <= i < |m| :: m[i].key
  }

  /** The identities of the first k tables. */
  function UnionKeys(tables: seq<seq<RepRow>>, k: nat): set<Key>
    requires k <= |tables|
  {
    if k == 0 then {} else UnionKeys(tables, k - 1) + TableKeys(tables[k - 1])
  }

  function NoneRow(width: nat): (r: seq<Option<Measure>>)
    ensures |r| == width && forall i :: 0 <= i < width ==> r[i].None?
  {
    seq(width, _ => None)
  }

  /** The rows of the table whose identity the merged table does not hold
      yet, in the table's order. */
  function Novel(acc: seq<MergedRow>, t: seq<RepRow>): seq<RepRow>
  {
    var seen := MergedKeys(acc);
    Filter(t, (r: RepRow) => r.key !in seen)
  }

  /** One `merge(..., how='outer')` of the merged table so far (width
      replicate columns) with the next replicate table: rows already present
      gain the new replicate's measures or NaN, and the table's new
      identities are appended with NaN in every earlier column. */
  function MergeStep(acc: seq<MergedRow>, width: nat, t: seq<RepRow>): (m: seq<MergedRow>)
  {
    var novel := Novel(acc, t);
    seq(|acc|, i requires 0 <= i < |acc| =>
        MergedRow(acc[i].key, acc[i].reps + [Lookup(t, acc[i].key)]))
    + seq(|novel|, i requires 0 <= i < |novel| =>
        MergedRow(novel[i].key, NoneRow(width) + [Some(novel[i].measure)]))
  }

  /** The merge of the first k replicate tables; merging the first table
      into nothing is the copy `outdfs[Nreps+1] = outdfs[1]`. */
  function MergeUpTo(tables: seq<seq<RepRow>>, k: nat): seq<MergedRow>
    requires k <= |tables|
  {
    if k == 0 then [] else MergeStep(MergeUpTo(tables, k - 1), k - 1, tables[k - 1])
  }

  /** The appended rows are the table's rows with a new identity, each
      with its own measures in the new column. */
  lemma NovelRows(acc: seq<MergedRow>, t: seq<RepRow>)
    requires DistinctBy(t, KeyOf)
    ensures var novel := Novel(acc, t);
      && DistinctBy(novel, KeyOf)
      && (forall n :: 0 <= n < |novel| ==>
            novel[n].key !in MergedKeys(acc) && novel[n].key in TableKeys(t)
            && Lookup(t, novel[n].key) == Some(novel[n].measure))
      && (forall j :: 0 <= j < |t| && t[j].key !in MergedKeys(acc) ==>
            exists n :: 0 <= n < |novel| && novel[n] == t[j])
  {
    var seen := MergedKeys(acc);
    var p := (r: RepRow) => r.key !in seen;
    var novel := Novel(acc, t);
    FilterMembership(t, p);
    FilterKeepsDistinct(t, p, KeyOf);
    forall n | 0 <= n < |novel|
      ensures novel[n].key in TableKeys(t) && Lookup(t, novel[n].key) == Some(novel[n].measure)
    {
      var k := FilterSource(t, p, n);
      LookupRow(t, k);
    }
    forall j | 0 <= j < |t| && t[j].key !in seen
      ensures exists n :: 0 <= n < |novel| && novel[n] == t[j]
    {
      assert t[j] in novel;
    }
  }

  /** Where each row of a merge step comes from. */
  lemma MergeStepShape(acc: seq<MergedRow>, width: nat, t: seq<RepRow>)
    ensures var m := MergeStep(acc, width, t);
      && |m| == |acc| + |Novel(acc, t)|
      && (forall i :: 0 <= i < |acc| ==> m[i] == MergedRow(acc[i].key, acc[i].reps + [Lookup(t, acc[i].key)]))
      && (forall i :: |acc| <= i < |m| ==>
            m[i] == MergedRow(Novel(acc, t)[i - |acc|].key,
                              NoneRow(width) + [Some(Novel(acc, t)[i - |acc|].measure)]))
  {
  }

  /** One merge step keeps the identities distinct. */
  lemma MergeStepDistinct(acc: seq<MergedRow>, width: nat, t: seq<RepRow>)
    requires DistinctBy(acc, MKey) && DistinctBy(t, KeyOf)
    ensures DistinctBy(MergeStep(acc, width, t), MKey)
  {
    var novel := Novel(acc, t);
    var m := MergeStep(acc, width, t);
    NovelRows(acc, t);
    MergeStepShape(acc, width, t);
    forall i, j | 0 <= i < j < |m|
      ensures MKey(m[i]) != MKey(m[j])
    {
      if j < |acc| {
        assert MKey(acc[i]) != MKey(acc[j]);
      } else if i >= |acc| {
        assert KeyOf(novel[i - |acc|]) != KeyOf(novel[j - |acc|]);
      } else {
        assert m[i].key in MergedKeys(acc);
      }
    }
  }

  /** One merge step covers exactly the old identities and the table's. */
  lemma MergeStepKeys(acc: seq<MergedRow>, width: nat, t: seq<RepRow>)
    requires DistinctBy(t, KeyOf)
    ensures MergedKeys(MergeStep(acc, width, t)) == MergedKeys(acc) + TableKeys(t)
  {
    MergeStepCovers(acc, width, t);
    MergeStepWithin(acc, width, t);
  }

  /** Every old identity and every identity of the table has a merged row. */
  lemma MergeStepCovers(acc: seq<MergedRow>, width: nat, t: seq<RepRow>)
    requires DistinctBy(t, KeyOf)
    ensures MergedKeys(acc) + TableKeys(t) <= MergedKeys(MergeStep(acc, width, t))
  {
    var seen := MergedKeys(acc);
    var novel := Novel(acc, t);
    var m := MergeStep(acc, width, t);
    NovelRows(acc, t);
    MergeStepShape(acc, width, t);
    forall k | k in seen + TableKeys(t)
      ensures k in MergedKeys(m)
    {
      if k !in seen {
        var j :| 0 <= j < |t| && t[j].key == k;
        var n :| 0 <= n < |novel| && novel[n] == t[j];
        assert m[|acc| + n].key == k;
      } else {
        var n :| 0 <= n < |acc| && acc[n].key == k;
        assert m[n].key == k;
      }
    }
  }

  /** A merged row's identity is an old one or one of the table's. */
  lemma MergeStepWithin(acc: seq<MergedRow>, width: nat, t: seq<RepRow>)
    requires DistinctBy(t, KeyOf)
    ensures MergedKeys(MergeStep(acc, width, t)) <= MergedKeys(acc) + TableKeys(t)
  {
    var novel := Novel(acc, t);
    var m := MergeStep(acc, width, t);
    NovelRows(acc, t);
    MergeStepShape(acc, width, t);
    forall k | k in MergedKeys(m)
      ensures k in MergedKeys(acc) + TableKeys(t)
    {
      var n :| 0 <= n < |m| && m[n].key == k;
      if n < |acc| {
        assert acc[n].key == k;
      } else {
        assert novel[n - |acc|].key == k;
      }
    }
  }

  /** How the rows of m relate to those of acc once table t has been
      merged in as replicate column `width`. */
  ghost predicate ColumnsStep(acc: seq<MergedRow>, width: nat, t: seq<RepRow>, m: seq<MergedRow>)
  {
    && |acc| <= |m|
    && (forall i :: 0 <= i < |m| ==> |m[i].reps| == width + 1 && m[i].reps[width] == Lookup(t, m[i].key))
    && (forall i :: 0 <= i < |acc| ==> m[i].key == acc[i].key && m[i].reps[..width] == acc[i].reps)
    && (forall i :: |acc| <= i < |m| ==> m[i].key !in MergedKeys(acc) && m[i].reps[..width] == NoneRow(width))
  }

  /** One merge step gives every row the table's measures as its new
      column and leaves the earlier columns as they were (NaN for a new
      identity). */
  lemma MergeStepColumns(acc: seq<MergedRow>, width: nat, t: seq<RepRow>)
    requires DistinctBy(t, KeyOf)
    requires forall i :: 0 <= i < |acc| ==> |acc[i].reps| == width
    ensures ColumnsStep(acc, width, t, MergeStep(acc, width, t))
  {
    var novel := Novel(acc, t);
    var m := MergeStep(acc, width, t);
    NovelRows(acc, t);
    MergeStepShape(acc, width, t);
    forall i | 0 <= i < |acc|
      ensures m[i].key == acc[i].key && m[i].reps[..width] == acc[i].reps
    {
      assert m[i].reps == acc[i].reps + [Lookup(t, acc[i].key)];
    }
    forall i | |acc| <= i < |m|
      ensures m[i].key !in MergedKeys(acc) && m[i].reps[..width] == NoneRow(width)
      ensures m[i].reps[width] == Lookup(t, m[i].key)
    {
      assert m[i].reps == NoneRow(width) + [Some(novel[i - |acc|].measure)];
    }
  }

  lemma {:induction false} UnionKeysHas(tables: seq<seq<RepRow>>, k: nat, r: nat)
    requires r < k <= |tables|
    ensures TableKeys(tables[r]) <= UnionKeys(tables, k)
  {
    if r < k - 1 {
      UnionKeysHas(tables, k - 1, r);
    }
  }

  /** What the merge of the first k tables is: one row per identity found
      in any of them, and column r of a row holds exactly what replicate r
      has for that identity (NaN when it has none). */
  ghost predicate MergeInv(tables: seq<seq<RepRow>>, k: nat, m: seq<MergedRow>)
    requires k <= |tables|
  {
    && DistinctBy(m, MKey)
    && MergedKeys(m) == UnionKeys(tables, k)
    && (forall i :: 0 <= i < |m| ==> |m[i].reps| == k)
    && (forall i, r :: 0 <= i < |m| && 0 <= r < k ==> m[i].reps[r] == Lookup(tables[r], m[i].key))
  }

  /** Merging the next table keeps the invariant. */
  lemma MergeStepInv(tables: seq<seq<RepRow>>, k: nat, acc: seq<MergedRow>)
    requires 0 < k <= |tables|
    requires DistinctBy(tables[k - 1], KeyOf)
    requires MergeInv(tables, k - 1, acc)
    ensures MergeInv(tables, k, MergeStep(acc, k - 1, tables[k - 1]))
  {
    MergeStepDistinct(acc, k - 1, tables[k - 1]);
    MergeStepUnion(tables, k, acc);
    MergeStepLookups(tables, k, acc);
  }

  /** The merged table of the first k replicate tables satisfies MergeInv. */
  lemma {:induction false} MergeSpec(tables: seq<seq<RepRow>>, k: nat)
    requires k <= |tables|
    requires forall r :: 0 <= r < |tables| ==> DistinctBy(tables[r], KeyOf)
    ensures MergeInv(tables, k, MergeUpTo(tables, k))
  {
    if k > 0 {
      MergeSpec(tables, k - 1);
      MergeStepInv(tables, k, MergeUpTo(tables, k - 1));
    }
  }

  /** After merging table k - 1 the identities are those of the first k
      tables. */
  lemma MergeStepUnion(tables: seq<seq<RepRow>>, k: nat, acc: seq<MergedRow>)
    requires 0 < k <= |tables|
    requires DistinctBy(tables[k - 1], KeyOf)
    requires MergedKeys(acc) == UnionKeys(tables, k - 1)
    ensures MergedKeys(MergeStep(acc, k - 1, tables[k - 1])) == UnionKeys(tables, k)
  {
    MergeStepKeys(acc, k - 1, tables[k - 1]);
  }

  /** After merging table k - 1 every row has k replicate columns and column
      r holds replicate r's measures for the row's identity. */
  lemma MergeStepLookups(tables: seq<seq<RepRow>>, k: nat, acc: seq<MergedRow>)
    requires 0 < k <= |tables|
    requires DistinctBy(tables[k - 1], KeyOf)
    requires MergedKeys(acc) == UnionKeys(tables, k - 1)
    requires forall i :: 0 <= i < |acc| ==> |acc[i].reps| == k - 1
    requires forall i, r :: 0 <= i < |acc| && 0 <= r < k - 1 ==> acc[i].reps[r] == Lookup(tables[r], acc[i].key)
    ensures var m := MergeStep(acc, k - 1, tables[k - 1]);
      && (forall i :: 0 <= i < |m| ==> |m[i].reps| == k)
      && (forall i, r :: 0 <= i < |m| && 0 <= r < k ==> m[i].reps[r] == Lookup(tables[r], m[i].key))
  {
    OldRowsKeep(tables, k, acc);
    NewRowsAbsent(tables, k, acc);
  }

  /** An identity already merged keeps its earlier columns and gets the
      table's measures as its new one. */
  lemma OldRowsKeep(tables: seq<seq<RepRow>>, k: nat, acc: seq<MergedRow>)
    requires 0 < k <= |tables|
    requires forall i :: 0 <= i < |acc| ==> |acc[i].reps| == k - 1
    requires forall i, r :: 0 <= i < |acc| && 0 <= r < k - 1 ==> acc[i].reps[r] == Lookup(tables[r], acc[i].key)
    ensures var m := MergeStep(acc, k - 1, tables[k - 1]);
      && |acc| <= |m|
      && (forall i :: 0 <= i < |acc| ==> |m[i].reps| == k)
      && (forall i, r :: 0 <= i < |acc| && 0 <= r < k ==> m[i].reps[r] == Lookup(tables[r], m[i].key))
  {
    var t := tables[k - 1];
    var m := MergeStep(acc, k - 1, t);
    forall i, r | 0 <= i < |acc| && 0 <= r < k
      ensures |m[i].reps| == k && m[i].reps[r] == Lookup(tables[r], m[i].key)
    {
      assert m[i] == MergedRow(acc[i].key, acc[i].reps + [Lookup(t, acc[i].key)]);
    }
  }

  /** A new identity has NaN in the earlier columns, as it is in none of
      the earlier tables, and its own measures in the new one. */
  lemma NewRowsAbsent(tables: seq<seq<RepRow>>, k: nat, acc: seq<MergedRow>)
    requires 0 < k <= |tables|
    requires DistinctBy(tables[k - 1], KeyOf)
    requires MergedKeys(acc) == UnionKeys(tables, k - 1)
    ensures var m := MergeStep(acc, k - 1, tables[k - 1]);
      && (forall i :: |acc| <= i < |m| ==> |m[i].reps| == k)
      && (forall i, r :: |acc| <= i < |m| && 0 <= r < k ==> m[i].reps[r] == Lookup(tables[r], m[i].key))
  {
    var t := tables[k - 1];
    var novel := Novel(acc, t);
    var m := MergeStep(acc, k - 1, t);
    NovelRows(acc, t);
    forall i, r | |acc| <= i < |m| && 0 <= r < k
      ensures |m[i].reps| == k && m[i].reps[r] == Lookup(tables[r], m[i].key)
    {
      var row := novel[i - |acc|];
      assert m[i] == MergedRow(row.key, NoneRow(k - 1) + [Some(row.measure)]);
      if r < k - 1 {
        AbsentEarlier(tables, k - 1, MergedKeys(acc), row.key, r);
      }
    }
  }

  /** An identity none of the first k tables has is NaN in each of their
      columns. */
  lemma AbsentEarlier(tables: seq<seq<RepRow>>, k: nat, seen: set<Key>, key: Key, r: nat)
    requires r < k <= |tables| && seen == UnionKeys(tables, k) && key !in seen
    ensures Lookup(tables[r], key) == None
  {
    UnionKeysHas(tables, k, r);
    LookupSpec(tables[r], key);
  }

  // ---------------------------------------------------------------------
  // The mean and SEM columns.

  datatype Column = Similarity | PVal | PAdj

  function Pick(m: Measure, c: Column): real
  {
    match c
    case Similarity => m.similarity
    case PVal => m.pval
    case PAdj => m.padj
  }

  /** The non-NaN values of one measure across the replicate columns of a
      merged row, in replicate order; pandas' mean and std skip the NaNs. */
  function Present(reps: seq<Option<Measure>>, c: Column): (xs: seq<real>)
    ensures |xs| <= |reps|
  {
    if reps == [] then []
    else
      var last := reps[|reps| - 1];
      Present(reps[..|reps| - 1], c) + (if last.Some? then [Pick(last.value, c)] else [])
  }

  function Sum(xs: seq<real>): real
  {
    if xs == [] then 0.0 else Sum(xs[..|xs| - 1]) + xs[|xs| - 1]
  }

  /** `mean(axis=1)`: NaN when no replicate holds the pair. */
  function Mean(xs: seq<real>): Option<real>
  {
    if xs == [] then None else Some(Sum(xs) / (|xs| as real))
  }

  /** The sum of squared deviations from mu. */
  function SqDev(xs: seq<real>, mu: real): (r: real)
    ensures r >= 0.0
  {
    if xs == [] then 0.0
    else
      var d := xs[|xs| - 1] - mu;
      SqDev(xs[..|xs| - 1], mu) + d * d
  }

  /** `std(axis=1)` squared: the sample variance (ddof = 1), NaN with fewer
      than two values. */
  function Variance(xs: seq<real>): Option<real>
  {
    if |xs| < 2 then None
    else Some(SqDev(xs, Sum(xs) / (|xs| as real)) / ((|xs| - 1) as real))
  }

  /** `std(axis=1) / sqrt(Nreps)`, squared: the variance over the replicates
      that hold the pair divided by the number of all replicates. */
  function SemSq(xs: seq<real>, nreps: nat): Option<real>
    requires nreps >= 1
  {
    match Variance(xs)
    case None => None
    case Some(v) => Some(v / (nreps as real))
  }

  /** The `mean:` and (squared) `sem:` columns of one measure. */
  datatype Stat = Stat(mean: Option<real>, semSq: Option<real>)

  function Describe(reps: seq<Option<Measure>>, c: Column, nreps: nat): Stat
    requires nreps >= 1
  {
    var xs := Present(reps, c);
    Stat(Mean(xs), SemSq(xs, nreps))
  }

  /** A row of the final table (the replicate columns are dropped). */
  datatype OutRow = OutRow(key: Key, sim: Stat, pval: Stat, padj: Stat)

  function Summarize(m: seq<MergedRow>, nreps: nat): (out: seq<OutRow>)
    requires nreps >= 1
    ensures |out| == |m|
  {
    seq(|m|, i requires 0 <= i < |m| =>
      OutRow(m[i].key, Describe(m[i].reps, Similarity, nreps), Describe(m[i].reps, PVal, nreps),
             Describe(m[i].reps, PAdj, nreps)))
  }

  /** A measure is present (the mean is not NaN) exactly when some replicate
      holds the pair. */
  lemma {:induction false} PresentEmpty(reps: seq<Option<Measure>>, c: Column)
    ensures Present(reps, c) == [] <==> forall r :: 0 <= r < |reps| ==> reps[r].None?
  {
    if reps != [] {
      PresentEmpty(reps[..|reps| - 1], c);
      assert forall r :: 0 <= r < |reps| - 1 ==> reps[..|reps| - 1][r] == reps[r];
    }
  }

  /** Values taken from replicates that all lie in [lo, hi] lie in [lo, hi]. */
  lemma {:induction false} PresentBounds(reps: seq<Option<Measure>>, c: Column, lo: real, hi: real)
    requires forall r :: 0 <= r < |reps| && reps[r].Some? ==> lo <= Pick(reps[r].value, c) <= hi
    ensures forall i :: 0 <= i < |Present(reps, c)| ==> lo <= Present(reps, c)[i] <= hi
  {
    if reps != [] {
      var init := reps[..|reps| - 1];
      assert forall r :: 0 <= r < |init| ==> init[r] == reps[r];
      PresentBounds(init, c, lo, hi);
    }
  }

  /** Values taken from replicates that all lie below hi lie below hi. */
  lemma {:induction false} PresentBelow(reps: seq<Option<Measure>>, c: Column, hi: real)
    requires forall r :: 0 <= r < |reps| && reps[r].Some? ==> Pick(reps[r].value, c) < hi
    ensures forall i :: 0 <= i < |Present(reps, c)| ==> Present(reps, c)[i] < hi
  {
    if reps != [] {
      var init := reps[..|reps| - 1];
      assert forall r :: 0 <= r < |init| ==> init[r] == reps[r];
      PresentBelow(init, c, hi);
    }
  }

  /** Two measures read off the same replicates pair up value by value. */
  lemma {:induction false} PresentPaired(reps: seq<Option<Measure>>, c1: Column, c2: Column)
    requires forall r :: 0 <= r < |reps| && reps[r].Some? ==> Pick(reps[r].value, c1) <= Pick(reps[r].value, c2)
    ensures |Present(reps, c1)| == |Present(reps, c2)|
    ensures forall i :: 0 <= i < |Present(reps, c1)| ==> Present(reps, c1)[i] <= Present(reps, c2)[i]
  {
    if reps != [] {
      var init := reps[..|reps| - 1];
      assert forall r :: 0 <= r < |init| ==> init[r] == reps[r];
      PresentPaired(init, c1, c2);
    }
  }

  lemma {:induction false} SumBounds(xs: seq<real>, lo: real, hi: real)
    requires forall i :: 0 <= i < |xs| ==> lo <= xs[i] <= hi
    ensures (|xs| as real) * lo <= Sum(xs) <= (|xs| as real) * hi
  {
    if xs != [] {
      SumBounds(xs[..|xs| - 1], lo, hi);
    }
  }

  /** Non-empty values all below hi sum to less than |xs| * hi. */
  lemma {:induction false} SumBelow(xs: seq<real>, hi: real)
    requires xs != []
    requires forall i :: 0 <= i < |xs| ==> xs[i] < hi
    ensures Sum(xs) < (|xs| as real) * hi
  {
    var init := xs[..|xs| - 1];
    if init != [] {
      SumBelow(init, hi);
    }
  }

  lemma {:induction false} SumMonotone(xs: seq<real>, ys: seq<real>)
    requires |xs| == |ys|
    requires forall i :: 0 <= i < |xs| ==> xs[i] <= ys[i]
    ensures Sum(xs) <= Sum(ys)
  {
    if xs != [] {
      SumMonotone(xs[..|xs| - 1], ys[..|ys| - 1]);
    }
  }

  lemma DivBounds(s: real, n: nat, lo: real, hi: real)
    requires n >= 1 && (n as real) * lo <= s <= (n as real) * hi
    ensures lo <= s / (n as real) <= hi
  {
    var q := s / (n as real);
    assert q * (n as real) == s;
  }

  /** The mean of values in [lo, hi] lies in [lo, hi]. */
  lemma MeanBounds(xs: seq<real>, lo: real, hi: real)
    requires xs != []
    requires forall i :: 0 <= i < |xs| ==> lo <= xs[i] <= hi
    ensures Mean(xs).Some? && lo <= Mean(xs).value <= hi
  {
    SumBounds(xs, lo, hi);
    DivBounds(Sum(xs), |xs|, lo, hi);
  }

  /** The mean of values all below hi is below hi. */
  lemma MeanBelow(xs: seq<real>, hi: real)
    requires xs != []
    requires forall i :: 0 <= i < |xs| ==> xs[i] < hi
    ensures Mean(xs).Some? && Mean(xs).value < hi
  {
    SumBelow(xs, hi);
    var n := |xs| as real;
    DivStrict(Sum(xs), n * hi, n);
    assert n * hi / n == hi;
  }

  /** Dividing by a positive number keeps a strict order. */
  lemma DivStrict(a: real, b: real, n: real)
    requires a < b && n > 0.0
    ensures a / n < b / n
  {
    assert (b - a) / n > 0.0;
    assert b / n - a / n == (b - a) / n;
  }

  /** Means over the same replicates keep a value-by-value order. */
  lemma MeanMonotone(xs: seq<real>, ys: seq<real>)
    requires |xs| == |ys| && xs != []
    requires forall i :: 0 <= i < |xs| ==> xs[i] <= ys[i]
    ensures Mean(xs).Some? && Mean(ys).Some? && Mean(xs).value <= Mean(ys).value
  {
    SumMonotone(xs, ys);
    DivMonotone(Sum(xs), Sum(ys), |xs| as real);
  }

  lemma DivMonotone(a: real, b: real, n: real)
    requires a <= b && n > 0.0
    ensures a / n <= b / n
  {
    assert (b - a) / n >= 0.0;
    assert b / n - a / n == (b - a) / n;
  }

  lemma {:induction false} SumConstant(xs: seq<real>, c: real)
    requires forall i :: 0 <= i < |xs| ==> xs[i] == c
    ensures Sum(xs) == (|xs| as real) * c
    ensures SqDev(xs, c) == 0.0
  {
    if xs != [] {
      SumConstant(xs[..|xs| - 1], c);
    }
  }

  /** Replicates that agree give that value as mean and a zero SEM (NaN SEM
      with a single replicate). */
  lemma MeanOfConstant(xs: seq<real>, c: real, nreps: nat)
    requires xs != [] && nreps >= 1
    requires forall i :: 0 <= i < |xs| ==> xs[i] == c
    ensures Mean(xs) == Some(c)
    ensures SemSq(xs, nreps) == if |xs| >= 2 then Some(0.0) else None
  {
    SumConstant(xs, c);
    DivBounds(Sum(xs), |xs|, c, c);
  }

  /** With at least two replicates holding the pair the SEM is a number
      and never negative. */
  lemma SemSqNonNegative(xs: seq<real>, nreps: nat)
    requires nreps >= 1 && |xs| >= 2
    ensures SemSq(xs, nreps).Some? && SemSq(xs, nreps).value >= 0.0
  {
    var sq := SqDev(xs, Sum(xs) / (|xs| as real));
    var v := sq / ((|xs| - 1) as real);
    assert v >= 0.0;
    assert v / (nreps as real) >= 0.0;
  }

  // ---------------------------------------------------------------------
  // The final sort: by the gene's position in the input list (the HGNC
  // column made categorical over the list's distinct values), then by
  // mean:padj (NaN last), then by GO description.

  /** The category code of an HGNC id: the position of its first occurrence
      in the input list, |hgncid| for an id that is not listed. */
  function Rank(hgncid: seq<string>, h: string): (r: nat)
    ensures r <= |hgncid|
    ensures r < |hgncid| <==> h in hgncid
    ensures r < |hgncid| ==> hgncid[r] == h && forall j :: 0 <= j < r ==> hgncid[j] != h
  {
    if hgncid == [] then 0
    else if hgncid[0] == h then 0
    else
      var r := Rank(hgncid[1..], h);
      assert forall j :: 1 <= j < |hgncid| ==> hgncid[j] == hgncid[1..][j - 1];
      1 + r
  }

  /** pandas' ascending order on a float column with NaN placed last. */
  predicate MeanLess(a: Option<real>, b: Option<real>)
  {
    a.Some? && (b.None? || a.value < b.value)
  }

  /** a may precede b in the final table. */
  predicate OutputLe(hgncid: seq<string>, a: OutRow, b: OutRow)
  {
    var ra := Rank(hgncid, a.key.hgnc);
    var rb := Rank(hgncid, b.key.hgnc);
    || ra < rb
    || (ra == rb && MeanLess(a.padj.mean, b.padj.mean))
    || (ra == rb && a.padj.mean == b.padj.mean && Lex.LessEq(a.key.description, b.key.description))
  }

  /** Any two rows are ordered one way round, and the order is transitive. */
  lemma OutputLeIsPreorder(hgncid: seq<string>)
    ensures Sorting.TotalPreorder((a: OutRow, b: OutRow) => OutputLe(hgncid, a, b))
  {
    var le := (a: OutRow, b: OutRow) => OutputLe(hgncid, a, b);
    forall a: OutRow, b: OutRow
      ensures le(a, b) || le(b, a)
    {
      Lex.LessTotal(a.key.description, b.key.description);
    }
    forall a: OutRow, b: OutRow, c: OutRow | le(a, b) && le(b, c)
      ensures le(a, c)
    {
      var da, db, dc := a.key.description, b.key.description, c.key.description;
      if Lex.Less(da, db) && Lex.Less(db, dc) {
        Lex.LessTransitive(da, db, dc);
      }
    }
  }

  function SortOutput(hgncid: seq<string>, rows: seq<OutRow>): (r: seq<OutRow>)
    ensures |r| == |rows|
  {
    Sorting.InsertionSort(rows, (a: OutRow, b: OutRow) => OutputLe(hgncid, a, b))
  }

  // ---------------------------------------------------------------------
  // The whole of `generate_output` for human genes.

  /** The outcome of each replicate r + 1, scored with node vectors nvs[r]. */
  function ReplicateResults(g: Graph, nvs: seq<Embedding>, srd: NullDist.NullDistribution,
                            hgncid: seq<string>, alphaFdr: real): (rs: seq<Result<seq<RepRow>>>)
    requires ValidGraph(g)
    ensures |rs| == |nvs|
  {
    seq(|nvs|, r requires 0 <= r < |nvs| => ReplicateTable(g, nvs[r], srd, hgncid, alphaFdr))
  }

  lemma ReplicateResultsAt(g: Graph, nvs: seq<Embedding>, srd: NullDist.NullDistribution,
                           hgncid: seq<string>, alphaFdr: real, r: nat)
    requires ValidGraph(g) && r < |nvs|
    ensures ReplicateResults(g, nvs, srd, hgncid, alphaFdr)[r] == ReplicateTable(g, nvs[r], srd, hgncid, alphaFdr)
  {
  }

  /** `outdfs[1..k]`: the replicate tables in replicate order; the first
      exception that is not a KeyError ends the run. */
  function AllTables(g: Graph, nvs: seq<Embedding>, srd: NullDist.NullDistribution,
                     hgncid: seq<string>, alphaFdr: real, k: nat): Result<seq<seq<RepRow>>>
    requires ValidGraph(g) && k <= |nvs|
  {
    CollectUpTo(ReplicateResults(g, nvs, srd, hgncid, alphaFdr), k)
  }

  /** The final table for the node vectors nvs[0], ..., nvs[Nreps-1] of the
      Nreps replicate runs, on an object whose `outdfs` starts empty. With
      no replicate at all `outdfs[1]` does not exist and the copy raises
      KeyError. */
  function GenerateOutput(g: Graph, nvs: seq<Embedding>, srd: NullDist.NullDistribution,
                          hgncid: seq<string>, alphaFdr: real): Result<seq<OutRow>>
    requires ValidGraph(g)
  {
    if |nvs| == 0 then Failure(KeyError)
    else
      var tables :- AllTables(g, nvs, srd, hgncid, alphaFdr, |nvs|);
      var merged := MergeUpTo(tables, |tables|);
      Success(SortOutput(hgncid, Summarize(merged, |nvs|)))
  }

  /** The run succeeds exactly when every replicate does, and then the
      tables are the replicates' tables in order. */
  lemma AllTablesSpec(g: Graph, nvs: seq<Embedding>, srd: NullDist.NullDistribution,
                      hgncid: seq<string>, alphaFdr: real, k: nat)
    requires ValidGraph(g) && k <= |nvs|
    ensures AllTables(g, nvs, srd, hgncid, alphaFdr, k).Success?
        <==> forall r :: 0 <= r < k ==> ReplicateTable(g, nvs[r], srd, hgncid, alphaFdr).Success?
    ensures AllTables(g, nvs, srd, hgncid, alphaFdr, k).Success? ==>
      var tables := AllTables(g, nvs, srd, hgncid, alphaFdr, k).value;
      && |tables| == k
      && forall r :: 0 <= r < k ==> tables[r] == ReplicateTable(g, nvs[r], srd, hgncid, alphaFdr).value
  {
    var rs := ReplicateResults(g, nvs, srd, hgncid, alphaFdr);
    CollectSpec(rs, k);
    assert forall r :: 0 <= r < k ==> rs[r] == ReplicateTable(g, nvs[r], srd, hgncid, alphaFdr);
  }

  /** The identity columns of replicate r for a key: its measures or NaN. */
  function ReplicateMeasures(tables: seq<seq<RepRow>>, k: Key): (c: seq<Option<Measure>>)
    ensures |c| == |tables|
  {
    seq(|tables|, r requires 0 <= r < |tables| => Lookup(tables[r], k))
  }

  // ---------------------------------------------------------------------
  // What the final table holds.

  /** The measures a replicate reports: p <= q <= 1, and q < alpha_FDR
      when the table was filtered. */
  ghost predicate MeasureOk(m: Measure, alphaFdr: real)
  {
    && 0.0 <= m.pval <= m.padj <= 1.0
    && (alphaFdr < 1.0 ==> m.padj < alphaFdr)
  }

  /** Every row of a replicate table carries measures that satisfy MeasureOk. */
  lemma {:induction false} TableMeasures(g: Graph, emb: Embedding, srd: NullDist.NullDistribution,
                                         hgncid: seq<string>, alphaFdr: real, k: nat)
    requires ValidGraph(g) && k <= |g.nodes|
    requires TableUpTo(g, emb, srd, hgncid, alphaFdr, k).Success?
    ensures var rows := TableUpTo(g, emb, srd, hgncid, alphaFdr, k).value;
      forall i :: 0 <= i < |rows| ==> MeasureOk(rows[i].measure, alphaFdr)
  {
    if k > 0 {
      TableMeasures(g, emb, srd, hgncid, alphaFdr, k - 1);
      var n := g.nodes[k - 1];
      match g.data[n].hgnc
      case None =>
      case Some(h) =>
        if h in hgncid {
          var r := GODf(g, emb, srd, n, Degree(g, n), alphaFdr);
          if r.Success? {
            GODfBounds(g, emb, srd, n, Degree(g, n), alphaFdr);
            assert forall i :: 0 <= i < |r.value| ==>
              GeneRows(h, n, Degree(g, n), r.value)[i].measure
                == Measure(r.value[i].similarity, r.value[i].pval, r.value[i].padj);
          }
        }
    }
  }

  /** Every identity of the union comes from some replicate table. */
  lemma {:induction false} UnionKeysFrom(tables: seq<seq<RepRow>>, k: nat, key: Key)
    returns (r: nat, j: nat)
    requires k <= |tables| && key in UnionKeys(tables, k)
    ensures r < k && j < |tables[r]| && tables[r][j].key == key
  {
    if key in TableKeys(tables[k - 1]) {
      r := k - 1;
      j :| 0 <= j < |tables[r]| && tables[r][j].key == key;
    } else {
      r, j := UnionKeysFrom(tables, k - 1, key);
    }
  }

  /** The replicate columns of a merged row are the replicates' measures
      for its identity. */
  lemma MergedReps(tables: seq<seq<RepRow>>)
    requires forall r :: 0 <= r < |tables| ==> DistinctBy(tables[r], KeyOf)
    ensures var m := MergeUpTo(tables, |tables|);
      forall i :: 0 <= i < |m| ==> m[i].reps == ReplicateMeasures(tables, m[i].key)
  {
    MergeSpec(tables, |tables|);
  }

  /** The run's tables: every replicate succeeded, and each table has
      distinct identities, listed genes and sound measures. */
  ghost predicate SoundTables(tables: seq<seq<RepRow>>, hgncid: seq<string>, alphaFdr: real)
  {
    forall r :: 0 <= r < |tables| ==>
      && DistinctBy(tables[r], KeyOf)
      && forall j :: 0 <= j < |tables[r]| ==>
           tables[r][j].key.hgnc in hgncid && MeasureOk(tables[r][j].measure, alphaFdr)
  }

  lemma AllTablesSound(g: Graph, nvs: seq<Embedding>, srd: NullDist.NullDistribution,
                       hgncid: seq<string>, alphaFdr: real)
    requires ValidGraph(g)
    requires forall r, x :: 0 <= r < |nvs| && x in nvs[r] ==> ValidRanking(nvs[r][x])
    requires AllTables(g, nvs, srd, hgncid, alphaFdr, |nvs|).Success?
    ensures var tables := AllTables(g, nvs, srd, hgncid, alphaFdr, |nvs|).value;
      |tables| == |nvs| && SoundTables(tables, hgncid, alphaFdr)
  {
    AllTablesSpec(g, nvs, srd, hgncid, alphaFdr, |nvs|);
    var tables := AllTables(g, nvs, srd, hgncid, alphaFdr, |nvs|).value;
    forall r | 0 <= r < |tables|
      ensures DistinctBy(tables[r], KeyOf)
      ensures forall j :: 0 <= j < |tables[r]| ==>
                tables[r][j].key.hgnc in hgncid && MeasureOk(tables[r][j].measure, alphaFdr)
    {
      var rows := TableUpTo(g, nvs[r], srd, hgncid, alphaFdr, |g.nodes|).value;
      TableShape(g, nvs[r], srd, hgncid, alphaFdr, |g.nodes|);
      TableMeasures(g, nvs[r], srd, hgncid, alphaFdr, |g.nodes|);
      SortReplicateSpec(hgncid, rows);
      forall j | 0 <= j < |tables[r]|
        ensures tables[r][j].key.hgnc in hgncid && MeasureOk(tables[r][j].measure, alphaFdr)
      {
        assert tables[r][j] in multiset(rows);
        var i :| 0 <= i < |rows| && rows[i] == tables[r][j];
      }
    }
  }

  /** Over replicates whose measures are sound, of which at least one holds
      the pair, every mean is a number, 0 <= mean:pval <= mean:padj <= 1,
      and mean:padj < alpha_FDR when alpha_FDR < 1. */
  lemma SoundStats(reps: seq<Option<Measure>>, alphaFdr: real, nreps: nat, r: nat)
    requires nreps >= 1 && r < |reps| && reps[r].Some?
    requires forall q :: 0 <= q < |reps| && reps[q].Some? ==> MeasureOk(reps[q].value, alphaFdr)
    ensures && Describe(reps, Similarity, nreps).mean.Some?
            && Describe(reps, PVal, nreps).mean.Some?
            && Describe(reps, PAdj, nreps).mean.Some?
            && 0.0 <= Describe(reps, PVal, nreps).mean.value <= Describe(reps, PAdj, nreps).mean.value <= 1.0
            && (alphaFdr < 1.0 ==> Describe(reps, PAdj, nreps).mean.value < alphaFdr)
  {
    PresentEmpty(reps, Similarity);
    PresentEmpty(reps, PVal);
    PresentEmpty(reps, PAdj);
    PresentBounds(reps, PVal, 0.0, 1.0);
    PresentBounds(reps, PAdj, 0.0, 1.0);
    PresentPaired(reps, PVal, PAdj);
    MeanBounds(Present(reps, PVal), 0.0, 1.0);
    MeanBounds(Present(reps, PAdj), 0.0, 1.0);
    MeanMonotone(Present(reps, PVal), Present(reps, PAdj));
    if alphaFdr < 1.0 {
      PresentBelow(reps, PAdj, alphaFdr);
      MeanBelow(Present(reps, PAdj), alphaFdr);
    }
  }

  /** A summarized identity that some replicate holds: its HGNC id is
      listed, every mean is a number, 0 <= mean:pval <= mean:padj <= 1, and
      mean:padj < alpha_FDR when the replicate tables were filtered. */
  lemma SummaryRow(tables: seq<seq<RepRow>>, hgncid: seq<string>, alphaFdr: real, key: Key, nreps: nat)
    requires SoundTables(tables, hgncid, alphaFdr) && nreps >= 1
    requires key in UnionKeys(tables, |tables|)
    ensures key.hgnc in hgncid
    ensures var reps := ReplicateMeasures(tables, key);
      && Describe(reps, Similarity, nreps).mean.Some?
      && Describe(reps, PVal, nreps).mean.Some?
      && Describe(reps, PAdj, nreps).mean.Some?
      && 0.0 <= Describe(reps, PVal, nreps).mean.value <= Describe(reps, PAdj, nreps).mean.value <= 1.0
      && (alphaFdr < 1.0 ==> Describe(reps, PAdj, nreps).mean.value < alphaFdr)
  {
    var reps := ReplicateMeasures(tables, key);
    var r, j := UnionKeysFrom(tables, |tables|, key);
    LookupRow(tables[r], j);
    forall q | 0 <= q < |reps| && reps[q].Some?
      ensures MeasureOk(reps[q].value, alphaFdr)
    {
      LookupSpec(tables[q], key);
      var i :| 0 <= i < |tables[q]| && tables[q][i] == RepRow(key, reps[q].value);
    }
    SoundStats(reps, alphaFdr, nreps, r);
  }

  function OKey(o: OutRow): Key { o.key }

  /** Before the sort: one row per identity of the union, each summarizing
      what the replicates hold for it. */
  lemma SummaryOfMerge(tables: seq<seq<RepRow>>, nreps: nat)
    requires nreps >= 1
    requires forall r :: 0 <= r < |tables| ==> DistinctBy(tables[r], KeyOf)
    ensures var m := MergeUpTo(tables, |tables|);
      var sm := Summarize(m, nreps);
      && DistinctBy(sm, OKey)
      && OutKeys(sm) == UnionKeys(tables, |tables|)
      && forall i :: 0 <= i < |sm| ==>
           var reps := ReplicateMeasures(tables, sm[i].key);
           sm[i] == OutRow(sm[i].key, Describe(reps, Similarity, nreps), Describe(reps, PVal, nreps),
                           Describe(reps, PAdj, nreps))
  {
    var m := MergeUpTo(tables, |tables|);
    var sm := Summarize(m, nreps);
    MergeSpec(tables, |tables|);
    MergedReps(tables);
    assert forall i :: 0 <= i < |sm| ==> sm[i].key == m[i].key;
    assert forall i, j :: 0 <= i < j < |sm| ==> MKey(m[i]) != MKey(m[j]);
    assert OutKeys(sm) == MergedKeys(m);
  }

  /** The final table is the summary, sorted: ordered by OutputLe and a
      reordering of the summarized rows. */
  lemma OutputSorted(g: Graph, nvs: seq<Embedding>, srd: NullDist.NullDistribution,
                     hgncid: seq<string>, alphaFdr: real)
    requires ValidGraph(g)
    requires GenerateOutput(g, nvs, srd, hgncid, alphaFdr).Success?
    ensures |nvs| >= 1 && AllTables(g, nvs, srd, hgncid, alphaFdr, |nvs|).Success?
    ensures var tables := AllTables(g, nvs, srd, hgncid, alphaFdr, |nvs|).value;
      var out := GenerateOutput(g, nvs, srd, hgncid, alphaFdr).value;
      && Sorting.SortedBy(out, (a: OutRow, b: OutRow) => OutputLe(hgncid, a, b))
      && multiset(out) == multiset(Summarize(MergeUpTo(tables, |tables|), |nvs|))
  {
    var tables := AllTables(g, nvs, srd, hgncid, alphaFdr, |nvs|).value;
    OutputLeIsPreorder(hgncid);
    Sorting.InsertionSortSpec(Summarize(MergeUpTo(tables, |tables|), |nvs|),
                              (a: OutRow, b: OutRow) => OutputLe(hgncid, a, b));
  }

  /** Every row of the final table is the summary of one identity found in
      some replicate: its mean and SEM columns are computed over exactly the
      replicates that hold it, its HGNC id is in the input list, its means
      are numbers, 0 <= mean:pval <= mean:padj <= 1, and with alpha_FDR < 1
      also mean:padj < alpha_FDR. */
  lemma OutputRows(g: Graph, nvs: seq<Embedding>, srd: NullDist.NullDistribution,
                   hgncid: seq<string>, alphaFdr: real)
    requires ValidGraph(g)
    requires forall r, x :: 0 <= r < |nvs| && x in nvs[r] ==> ValidRanking(nvs[r][x])
    requires GenerateOutput(g, nvs, srd, hgncid, alphaFdr).Success?
    ensures |nvs| >= 1 && AllTables(g, nvs, srd, hgncid, alphaFdr, |nvs|).Success?
    ensures var tables := AllTables(g, nvs, srd, hgncid, alphaFdr, |nvs|).value;
      var out := GenerateOutput(g, nvs, srd, hgncid, alphaFdr).value;
      forall i :: 0 <= i < |out| ==>
        var reps := ReplicateMeasures(tables, out[i].key);
        && out[i].key in UnionKeys(tables, |tables|)
        && out[i].key.hgnc in hgncid
        && out[i].sim == Describe(reps, Similarity, |nvs|)
        && out[i].pval == Describe(reps, PVal, |nvs|)
        && out[i].padj == Describe(reps, PAdj, |nvs|)
        && out[i].sim.mean.Some? && out[i].pval.mean.Some? && out[i].padj.mean.Some?
        && 0.0 <= out[i].pval.mean.value <= out[i].padj.mean.value <= 1.0
        && (alphaFdr < 1.0 ==> out[i].padj.mean.value < alphaFdr)
  {
    var tables := AllTables(g, nvs, srd, hgncid, alphaFdr, |nvs|).value;
    var out := GenerateOutput(g, nvs, srd, hgncid, alphaFdr).value;
    var sm := Summarize(MergeUpTo(tables, |tables|), |nvs|);
    AllTablesSound(g, nvs, srd, hgncid, alphaFdr);
    SummaryOfMerge(tables, |nvs|);
    OutputSorted(g, nvs, srd, hgncid, alphaFdr);
    forall i | 0 <= i < |out|
      ensures var reps := ReplicateMeasures(tables, out[i].key);
        && out[i].key in UnionKeys(tables, |tables|)
        && out[i].key.hgnc in hgncid
        && out[i].sim == Describe(reps, Similarity, |nvs|)
        && out[i].pval == Describe(reps, PVal, |nvs|)
        && out[i].padj == Describe(reps, PAdj, |nvs|)
        && out[i].sim.mean.Some? && out[i].pval.mean.Some? && out[i].padj.mean.Some?
        && 0.0 <= out[i].pval.mean.value <= out[i].padj.mean.value <= 1.0
        && (alphaFdr < 1.0 ==> out[i].padj.mean.value < alphaFdr)
    {
      assert out[i] in multiset(sm);
      var j :| 0 <= j < |sm| && sm[j] == out[i];
      assert sm[j].key in OutKeys(sm);
      SummaryRow(tables, hgncid, alphaFdr, out[i].key, |nvs|);
    }
  }

  function OutKeys(out: seq<OutRow>): set<Key>
  {
    set i | 0 <= i < |out| :: out[i].key
  }

  lemma PermutationKeys(sm: seq<OutRow>, out: seq<OutRow>)
    requires multiset(out) == multiset(sm)
    ensures OutKeys(out) == OutKeys(sm)
  {
    forall k | k in OutKeys(out)
      ensures k in OutKeys(sm)
    {
      var i :| 0 <= i < |out| && out[i].key == k;
      assert out[i] in multiset(sm);
      var j :| 0 <= j < |sm| && sm[j] == out[i];
    }
    forall k | k in OutKeys(sm)
      ensures k in OutKeys(out)
    {
      var j :| 0 <= j < |sm| && sm[j].key == k;
      assert sm[j] in multiset(out);
      var i :| 0 <= i < |out| && out[i] == sm[j];
    }
  }

  /** The final table has exactly one row per identity tuple found in any
      replicate. */
  lemma OutputKeys(g: Graph, nvs: seq<Embedding>, srd: NullDist.NullDistribution,
                   hgncid: seq<string>, alphaFdr: real)
    requires ValidGraph(g)
    requires forall r, x :: 0 <= r < |nvs| && x in nvs[r] ==> ValidRanking(nvs[r][x])
    requires GenerateOutput(g, nvs, srd, hgncid, alphaFdr).Success?
    ensures |nvs| >= 1 && AllTables(g, nvs, srd, hgncid, alphaFdr, |nvs|).Success?
    ensures var tables := AllTables(g, nvs, srd, hgncid, alphaFdr, |nvs|).value;
      var out := GenerateOutput(g, nvs, srd, hgncid, alphaFdr).value;
      DistinctBy(out, OKey) && OutKeys(out) == UnionKeys(tables, |tables|)
  {
    var tables := AllTables(g, nvs, srd, hgncid, alphaFdr, |nvs|).value;
    var out := GenerateOutput(g, nvs, srd, hgncid, alphaFdr).value;
    var sm := Summarize(MergeUpTo(tables, |tables|), |nvs|);
    AllTablesSound(g, nvs, srd, hgncid, alphaFdr);
    SummaryOfMerge(tables, |nvs|);
    OutputSorted(g, nvs, srd, hgncid, alphaFdr);
    PermutationKeepsDistinct(sm, out, OKey);
    PermutationKeys(sm, out);
  }

  /** The final rows are grouped by gene in the order the genes first
      appear in the input list; within a gene they ascend by mean:padj and
      then by GO description. */
  lemma OutputOrder(g: Graph, nvs: seq<Embedding>, srd: NullDist.NullDistribution,
                    hgncid: seq<string>, alphaFdr: real)
    requires ValidGraph(g)
    requires forall r, x :: 0 <= r < |nvs| && x in nvs[r] ==> ValidRanking(nvs[r][x])
    requires GenerateOutput(g, nvs, srd, hgncid, alphaFdr).Success?
    ensures var out := GenerateOutput(g, nvs, srd, hgncid, alphaFdr).value;
      forall i, j :: 0 <= i < j < |out| ==>
        && out[i].padj.mean.Some? && out[j].padj.mean.Some?
        && Rank(hgncid, out[i].key.hgnc) <= Rank(hgncid, out[j].key.hgnc)
        && (Rank(hgncid, out[i].key.hgnc) == Rank(hgncid, out[j].key.hgnc) ==>
              out[i].padj.mean.value <= out[j].padj.mean.value)
        && (Rank(hgncid, out[i].key.hgnc) == Rank(hgncid, out[j].key.hgnc)
            && out[i].padj.mean == out[j].padj.mean ==>
              Lex.LessEq(out[i].key.description, out[j].key.description))
  {
    var out := GenerateOutput(g, nvs, srd, hgncid, alphaFdr).value;
    OutputRows(g, nvs, srd, hgncid, alphaFdr);
    OutputSorted(g, nvs, srd, hgncid, alphaFdr);
    forall i, j | 0 <= i < j < |out|
      ensures Rank(hgncid, out[i].key.hgnc) == Rank(hgncid, out[j].key.hgnc)
              && out[i].padj.mean == out[j].padj.mean ==>
                Lex.LessEq(out[i].key.description, out[j].key.description)
    {
      assert OutputLe(hgncid, out[i], out[j]);
    }
  }

  // ---------------------------------------------------------------------
  // Facts the step-by-step version of `generate_output` relies on.

  /** Once the node loop has failed, it stays failed with that exception. */
  lemma {:induction false} TableUpToFailure(g: Graph, emb: Embedding, srd: NullDist.NullDistribution,
                                            hgncid: seq<string>, alphaFdr: real, k: nat, k': nat)
    requires ValidGraph(g) && k <= k' <= |g.nodes|
    requires TableUpTo(g, emb, srd, hgncid, alphaFdr, k).Failure?
    ensures TableUpTo(g, emb, srd, hgncid, alphaFdr, k') == TableUpTo(g, emb, srd, hgncid, alphaFdr, k)
  {
    if k < k' {
      TableUpToFailure(g, emb, srd, hgncid, alphaFdr, k, k' - 1);
    }
  }

  /** One more replicate appends its table to those before it; a replicate
      whose node loop raises ends the replicate loop with that exception. */
  lemma AllTablesStep(g: Graph, nvs: seq<Embedding>, srd: NullDist.NullDistribution,
                      hgncid: seq<string>, alphaFdr: real, k: nat, tables: seq<seq<RepRow>>)
    requires ValidGraph(g) && k < |nvs|
    requires AllTables(g, nvs, srd, hgncid, alphaFdr, k) == Success(tables)
    ensures var t := ReplicateTable(g, nvs[k], srd, hgncid, alphaFdr);
      && (t.Success? ==> AllTables(g, nvs, srd, hgncid, alphaFdr, k + 1) == Success(tables + [t.value]))
      && (t.Failure? ==> AllTables(g, nvs, srd, hgncid, alphaFdr, |nvs|) == Failure(t.error))
  {
    var rs := ReplicateResults(g, nvs, srd, hgncid, alphaFdr);
    ReplicateResultsAt(g, nvs, srd, hgncid, alphaFdr, k);
    if rs[k].Failure? {
      CollectFailsAt(rs, k);
    }
  }

  /** Once a replicate has failed, the run stays failed with that exception. */
  lemma AllTablesFailure(g: Graph, nvs: seq<Embedding>, srd: NullDist.NullDistribution,
                          hgncid: seq<string>, alphaFdr: real, k: nat, k': nat)
    requires ValidGraph(g) && k <= k' <= |nvs|
    requires AllTables(g, nvs, srd, hgncid, alphaFdr, k).Failure?
    ensures AllTables(g, nvs, srd, hgncid, alphaFdr, k') == AllTables(g, nvs, srd, hgncid, alphaFdr, k)
  {
    CollectFailure(ReplicateResults(g, nvs, srd, hgncid, alphaFdr), k, k');
  }

  /** `copy.deepcopy(outdfs[1])`: the first table with its measures as the
      only replicate column. */
  function FirstMerged(t: seq<RepRow>): (m: seq<MergedRow>)
    ensures |m| == |t|
  {
    seq(|t|, i requires 0 <= i < |t| => MergedRow(t[i].key, [Some(t[i].measure)]))
  }

  /** The copy is the outer merge of the first table into nothing. */
  lemma FirstMergedIsMerge(t: seq<RepRow>)
    ensures FirstMerged(t) == MergeStep([], 0, t)
  {
    NovelOfEmpty(t);
    assert NoneRow(0) == [];
    var m := MergeStep([], 0, t);
    forall i | 0 <= i < |t|
      ensures m[i] == FirstMerged(t)[i]
    {
      assert m[i] == MergedRow(t[i].key, NoneRow(0) + [Some(t[i].measure)]);
    }
  }

  /** Two one-row tables with the same identity merge into one row holding
      both replicates. */
  lemma MergeSameKey(k: Key, a: Measure, b: Measure)
    ensures MergeUpTo([[RepRow(k, a)], [RepRow(k, b)]], 2) == [MergedRow(k, [Some(a), Some(b)])]
  {
    var t1, t2 := [RepRow(k, a)], [RepRow(k, b)];
    var ts := [t1, t2];
    assert MergeUpTo(ts, 0) == [] && ts[0] == t1 && ts[1] == t2;
    FirstMergedIsMerge(t1);
    var m1 := MergeUpTo(ts, 1);
    assert m1 == FirstMerged(t1);
    assert m1 == [MergedRow(k, [Some(a)])];
    assert MergedKeys(m1) == {k} by {
      assert m1[0].key == k;
    }
    assert t2 == [] + [t2[0]];
    assert Novel(m1, t2) == [];
    var m := MergeUpTo(ts, 2);
    assert m == MergeStep(m1, 1, t2);
    assert |m| == 1;
    assert [Some(a)] + [Some(b)] == [Some(a), Some(b)];
  }

  /** A one-row table merged with an empty one keeps the row, with nothing
      for the second replicate. */
  lemma MergeWithEmpty(k: Key, a: Measure)
    ensures MergeUpTo([[RepRow(k, a)], []], 2) == [MergedRow(k, [Some(a), None])]
  {
    var t1: seq<RepRow> := [RepRow(k, a)];
    var ts := [t1, []];
    assert MergeUpTo(ts, 0) == [] && ts[0] == t1 && ts[1] == [];
    FirstMergedIsMerge(t1);
    var m1 := MergeUpTo(ts, 1);
    assert m1 == FirstMerged(t1);
    assert m1 == [MergedRow(k, [Some(a)])];
    assert Novel(m1, []) == [];
    var m := MergeUpTo(ts, 2);
    assert m == MergeStep(m1, 1, []);
    assert |m| == 1;
    assert [Some(a)] + [None] == [Some(a), None];
  }

  /** Each replicate table is filtered at alpha_FDR before the merge (in
      `get_GO_df`), so filtering the alpha_FDR = 1 output at t is not a run
      at t. A pair with padj 0.01 in replicate 1 and 0.2 in replicate 2 has
      mean:padj 0.105 without filtering, and a filter at 0.1 drops it. Run
      at 0.1, replicate 2 loses its row before the merge, and the pair is
      reported with mean:padj 0.01. */
  lemma FilterBeforeMerge(k: Key, s1: real, s2: real)
    ensures var t1 := [RepRow(k, Measure(s1, 0.01, 0.01))];
      var t2 := [RepRow(k, Measure(s2, 0.2, 0.2))];
      var keep := (r: RepRow) => r.measure.padj < 0.1;
      var full := Summarize(MergeUpTo([t1, t2], 2), 2);
      var atT := Summarize(MergeUpTo([Filter(t1, keep), Filter(t2, keep)], 2), 2);
      && |full| == 1 && full[0].padj.mean == Some(0.105) && !(0.105 < 0.1)
      && |atT| == 1 && atT[0].padj.mean == Some(0.01) && 0.01 < 0.1
  {
    var a, b := Measure(s1, 0.01, 0.01), Measure(s2, 0.2, 0.2);
    var t1, t2 := [RepRow(k, a)], [RepRow(k, b)];
    var keep := (r: RepRow) => r.measure.padj < 0.1;
    MergeSameKey(k, a, b);
    PAdjMeanOfTwo(a, b);
    FilterOneRow(t1[0], keep);
    FilterOneRow(t2[0], keep);
    MergeWithEmpty(k, a);
    PAdjMeanOfOne(a);
  }

  /** A one-row table keeps its row exactly when the row passes. */
  lemma FilterOneRow(r: RepRow, keep: RepRow -> bool)
    ensures Filter([r], keep) == if keep(r) then [r] else []
  {
    assert [r] == [] + [r];
  }

  /** The padj column of a single replicate. */
  lemma PresentOne(a: Measure)
    ensures Present([Some(a)], PAdj) == [a.padj]
  {
    assert [Some(a)][..0] == [];
  }

  /** mean:padj over two replicates holding the pair. */
  lemma PAdjMeanOfTwo(a: Measure, b: Measure)
    ensures Describe([Some(a), Some(b)], PAdj, 2).mean == Some((a.padj + b.padj) / 2.0)
  {
    var reps := [Some(a)] + [Some(b)];
    assert reps == [Some(a), Some(b)];
    assert reps[..1] == [Some(a)];
    PresentOne(a);
    var xs := [a.padj] + [b.padj];
    assert Present(reps, PAdj) == xs;
    assert xs[..1] == [a.padj] && [a.padj][..0] == [];
    assert Sum([a.padj]) == a.padj;
    assert Sum(xs) == a.padj + b.padj;
  }

  /** mean:padj when only the first of two replicates holds the pair. */
  lemma PAdjMeanOfOne(a: Measure)
    ensures Describe([Some(a), None], PAdj, 2).mean == Some(a.padj)
  {
    var reps := [Some(a)] + [None];
    assert reps == [Some(a), None];
    assert reps[..1] == [Some(a)];
    PresentOne(a);
    assert Present(reps, PAdj) == [a.padj];
    assert [a.padj][..0] == [];
    assert Sum([a.padj]) == a.padj;
  }

  /** Against an empty merge every row of the table is new. */
  lemma NovelOfEmpty(t: seq<RepRow>)
    ensures Novel([], t) == t
  {
    var seen := MergedKeys([]);
    assert seen == {};
    FilterAll(t, (r: RepRow) => r.key !in seen);
  }
}
