/** make_indra_sif.py: the INDRA statement table restricted to pairs of
    genes of interest, then grouped by agent pair and statement type with
    the numeric columns summed. */
module IndraSif {
  import opened Seqs
  import opened Sorting
  import Lex

  /** One row of the statement table: source agent A, target agent B (each
      a namespace, an id and a name), the statement type, and the numeric
      columns that `sum()` adds up. */
  datatype Row = Row(agANs: string, agAId: string, agAName: string,
                     agBNs: string, agBId: string, agBName: string,
                     stmtType: string, counts: seq<int>)

  /** Both agents are HGNC genes of the list. */
  predicate BothGenes(genes: seq<string>, r: Row)
  {
    && r.agANs == "HGNC" && r.agAId in genes
    && r.agBNs == "HGNC" && r.agBId in genes
  }

  /** The row mask of `filter_to_genes`. */
  function Mask(genes: seq<string>): Row -> bool
  {
    (r: Row) => BothGenes(genes, r)
  }

  /** `filter_to_genes(df, genes)`. */
  function FilterToGenes(rows: seq<Row>, genes: seq<string>): (kept: seq<Row>)
    ensures |kept| <= |rows|
  {
    Filter(rows, Mask(genes))
  }

  /** A row is kept exactly when both its agents are HGNC genes of the list;
      the kept rows are in their input order, and filtering again keeps
      them all. */
  lemma FilterToGenesSpec(rows: seq<Row>, genes: seq<string>)
    ensures forall r :: r in FilterToGenes(rows, genes) <==> r in rows && BothGenes(genes, r)
    ensures IsSubsequence(FilterToGenes(rows, genes), rows)
    ensures FilterToGenes(FilterToGenes(rows, genes), genes) == FilterToGenes(rows, genes)
  {
    var p := Mask(genes);
    FilterMembership(rows, p);
    FilterIsSubsequence(rows, p);
    FilterIdempotent(rows, p);
  }

  /** The group-by key (agA_ns, agA_id, agA_name, agB_ns, agB_id, agB_name,
      stmt_type). */
  function GroupKey(r: Row): (k: seq<string>)
    ensures |k| == 7
  {
    [r.agANs, r.agAId, r.agAName, r.agBNs, r.agBId, r.agBName, r.stmtType]
  }

  /** Every row has the table's width numeric columns. */
  ghost predicate Uniform(rows: seq<Row>, width: nat)
  {
    forall i :: 0 <= i < |rows| ==> |rows[i].counts| == width
  }

  /** The order `groupby` sorts its keys in: by length, then Python's
      tuple order. */
  predicate KeyLe(a: seq<string>, b: seq<string>)
  {
    |a| < |b| || (|a| == |b| && (a == b || Lex.TupleLess(a, b)))
  }

  lemma KeyLeIsPreorder()
    ensures TotalPreorder(KeyLe)
  {
    forall a, b
      ensures KeyLe(a, b) || KeyLe(b, a)
    {
      if |a| == |b| {
        Lex.TupleLessTotal(a, b);
      }
    }
    forall a, b, c | KeyLe(a, b) && KeyLe(b, c)
      ensures KeyLe(a, c)
    {
      if |a| == |b| == |c| && a != b && b != c {
        Lex.TupleLessTransitive(a, b, c);
      }
    }
  }

  /** The keys that occur in the rows. */
  function RowKeys(rows: seq<Row>): set<seq<string>>
  {
    set i | 0 <= i < |rows| :: GroupKey(rows[i])
  }

  /** The keys of the groups. */
  function GroupKeys(groups: seq<Group>): set<seq<string>>
  {
    set g | 0 <= g < |groups| :: groups[g].key
  }

  /** The keys of the rows, each once, in order of first appearance. */
  function DistinctKeys(rows: seq<Row>): (ks: seq<seq<string>>)
  {
    if rows == [] then []
    else
      var ks := DistinctKeys(rows[..|rows| - 1]);
      var k := GroupKey(rows[|rows| - 1]);
      if k in ks then ks else ks + [k]
  }

  lemma {:induction false} DistinctKeysSpec(rows: seq<Row>)
    ensures forall k :: k in DistinctKeys(rows) <==> k in RowKeys(rows)
    ensures forall i, j :: 0 <= i < j < |DistinctKeys(rows)| ==> DistinctKeys(rows)[i] != DistinctKeys(rows)[j]
  {
    if rows != [] {
      var init := rows[..|rows| - 1];
      var last := GroupKey(rows[|rows| - 1]);
      var prev := DistinctKeys(init);
      var ks := DistinctKeys(rows);
      assert ks == if last in prev then prev else prev + [last];
      DistinctKeysSpec(init);
      assert RowKeys(rows) == RowKeys(init) + {last} by {
        forall k | k in RowKeys(rows)
          ensures k in RowKeys(init) + {last}
        {
          var i :| 0 <= i < |rows| && GroupKey(rows[i]) == k;
          if i < |init| {
            assert init[i] == rows[i];
          }
        }
        forall k | k in RowKeys(init)
          ensures k in RowKeys(rows)
        {
          var i :| 0 <= i < |init| && GroupKey(init[i]) == k;
          assert rows[i] == init[i];
        }
      }
      assert forall k :: k in ks <==> k in prev || k == last;
    }
  }

  /** Column c summed over the rows of key k. */
  function ColumnTotal(rows: seq<Row>, k: seq<string>, c: nat): int
    requires forall i :: 0 <= i < |rows| ==> c < |rows[i].counts|
  {
    if rows == [] then 0
    else
      var last := rows[|rows| - 1];
      ColumnTotal(rows[..|rows| - 1], k, c) + (if GroupKey(last) == k then last.counts[c] else 0)
  }

  /** Column c summed over all rows. */
  function ColumnSum(rows: seq<Row>, c: nat): int
    requires forall i :: 0 <= i < |rows| ==> c < |rows[i].counts|
  {
    if rows == [] then 0 else ColumnSum(rows[..|rows| - 1], c) + rows[|rows| - 1].counts[c]
  }

  /** One row of the collapsed table: a key and its summed columns. */
  datatype Group = Group(key: seq<string>, counts: seq<int>)

  /** `collapse_and_count(df)`: `groupby(by=key).sum()`, one group per
      distinct key in sorted key order. */
  function CollapseAndCount(rows: seq<Row>, width: nat): (groups: seq<Group>)
    requires Uniform(rows, width)
  {
    var keys := InsertionSort(DistinctKeys(rows), KeyLe);
    seq(|keys|, g requires 0 <= g < |keys| =>
      Group(keys[g], seq(width, c requires 0 <= c < width => ColumnTotal(rows, keys[g], c))))
  }

  /** The sorted key list holds each key of the rows once, in strictly
      increasing tuple order. */
  lemma SortedKeys(rows: seq<Row>) returns (keys: seq<seq<string>>)
    ensures keys == InsertionSort(DistinctKeys(rows), KeyLe)
    ensures forall k :: k in keys <==> k in RowKeys(rows)
    ensures forall g, h :: 0 <= g < h < |keys| ==>
      keys[g] != keys[h] && |keys[g]| == |keys[h]| == 7 && Lex.TupleLess(keys[g], keys[h])
  {
    var ks := DistinctKeys(rows);
    keys := InsertionSort(ks, KeyLe);
    DistinctKeysSpec(rows);
    KeyLeIsPreorder();
    InsertionSortSpec(ks, KeyLe);
    PermutationKeepsDistinct(ks, keys, (k: seq<string>) => k);
    forall k
      ensures k in keys <==> k in ks
    {
      assert k in keys <==> k in multiset(keys);
      assert k in ks <==> k in multiset(ks);
    }
    forall g, h | 0 <= g < h < |keys|
      ensures keys[g] != keys[h] && |keys[g]| == |keys[h]| == 7 && Lex.TupleLess(keys[g], keys[h])
    {
      assert keys[g] in RowKeys(rows) && keys[h] in RowKeys(rows);
      assert KeyLe(keys[g], keys[h]);
    }
  }

  /** The keys of the collapsed table are the keys of the input rows, each
      exactly once and in strictly increasing tuple order. */
  lemma CollapseKeys(rows: seq<Row>, width: nat)
    requires Uniform(rows, width)
    ensures var groups := CollapseAndCount(rows, width);
      && GroupKeys(groups) == RowKeys(rows)
      && (forall g, h :: 0 <= g < h < |groups| ==>
            |groups[g].key| == |groups[h].key| && Lex.TupleLess(groups[g].key, groups[h].key))
  {
    var keys := SortedKeys(rows);
    var groups := CollapseAndCount(rows, width);
    assert forall g :: 0 <= g < |groups| ==> groups[g].key == keys[g];
    forall k | k in RowKeys(rows)
      ensures k in GroupKeys(groups)
    {
      var g :| 0 <= g < |keys| && keys[g] == k;
      assert groups[g].key == k;
    }
  }

  /** Each group's columns are the sums of that column over the rows of its
      key, so the grand total of every column is unchanged. */
  lemma CollapseTotals(rows: seq<Row>, width: nat)
    requires Uniform(rows, width)
    ensures var groups := CollapseAndCount(rows, width);
      forall g, c :: 0 <= g < |groups| && 0 <= c < width ==>
        |groups[g].counts| == width && groups[g].counts[c] == ColumnTotal(rows, groups[g].key, c)
    ensures var groups := CollapseAndCount(rows, width);
      forall c :: 0 <= c < width ==> GroupSum(groups, c) == ColumnSum(rows, c)
  {
    var keys := SortedKeys(rows);
    var groups := CollapseAndCount(rows, width);
    forall c | 0 <= c < width
      ensures GroupSum(groups, c) == ColumnSum(rows, c)
    {
      forall i | 0 <= i < |rows|
        ensures GroupKey(rows[i]) in keys
      {
        assert GroupKey(rows[i]) in RowKeys(rows);
      }
      GroupSumIsKeySum(rows, width, keys, c);
      KeySumIsColumnSum(rows, keys, c);
    }
  }

  /** Column c summed over the groups. */
  function GroupSum(groups: seq<Group>, c: nat): int
    requires forall g :: 0 <= g < |groups| ==> c < |groups[g].counts|
  {
    if groups == [] then 0 else GroupSum(groups[..|groups| - 1], c) + groups[|groups| - 1].counts[c]
  }

  /** Column c of the rows, added up key by key over keys. */
  function KeySum(rows: seq<Row>, keys: seq<seq<string>>, c: nat): int
    requires forall i :: 0 <= i < |rows| ==> c < |rows[i].counts|
  {
    if keys == [] then 0 else KeySum(rows, keys[..|keys| - 1], c) + ColumnTotal(rows, keys[|keys| - 1], c)
  }

  lemma {:induction false} GroupSumIsKeySum(rows: seq<Row>, width: nat, keys: seq<seq<string>>, c: nat)
    requires Uniform(rows, width) && c < width
    requires keys == InsertionSort(DistinctKeys(rows), KeyLe)
    ensures GroupSum(CollapseAndCount(rows, width), c) == KeySum(rows, keys, c)
  {
    var groups := CollapseAndCount(rows, width);
    PrefixSums(rows, width, groups, keys, c, |keys|);
    assert groups[..|keys|] == groups && keys[..|keys|] == keys;
  }

  lemma {:induction false} PrefixSums(rows: seq<Row>, width: nat, groups: seq<Group>,
                                      keys: seq<seq<string>>, c: nat, n: nat)
    requires Uniform(rows, width) && c < width && n <= |keys| == |groups|
    requires forall g :: 0 <= g < |groups| ==>
      |groups[g].counts| == width && groups[g].counts[c] == ColumnTotal(rows, keys[g], c)
    ensures GroupSum(groups[..n], c) == KeySum(rows, keys[..n], c)
  {
    if n > 0 {
      PrefixSums(rows, width, groups, keys, c, n - 1);
      assert groups[..n][..n - 1] == groups[..n - 1];
      assert keys[..n][..n - 1] == keys[..n - 1];
    } else {
      assert keys[..0] == [];
    }
  }

  /** Adding up column c key by key, over distinct keys that cover every
      row, counts every row exactly once. */
  lemma {:induction false} KeySumIsColumnSum(rows: seq<Row>, keys: seq<seq<string>>, c: nat)
    requires forall i :: 0 <= i < |rows| ==> c < |rows[i].counts|
    requires forall i, j :: 0 <= i < j < |keys| ==> keys[i] != keys[j]
    requires forall i :: 0 <= i < |rows| ==> GroupKey(rows[i]) in keys
    ensures KeySum(rows, keys, c) == ColumnSum(rows, c)
  {
    if rows == [] {
      KeySumOfNothing(rows, keys, c);
    } else {
      var init := rows[..|rows| - 1];
      var last := rows[|rows| - 1];
      assert forall i :: 0 <= i < |init| ==> init[i] == rows[i];
      KeySumIsColumnSum(init, keys, c);
      KeySumLastRow(rows, keys, c);
    }
  }

  lemma {:induction false} KeySumOfNothing(rows: seq<Row>, keys: seq<seq<string>>, c: nat)
    requires rows == []
    ensures KeySum(rows, keys, c) == 0
  {
    if keys != [] {
      KeySumOfNothing(rows, keys[..|keys| - 1], c);
    }
  }

  /** The last row adds its value to exactly the one key that is its own. */
  lemma {:induction false} KeySumLastRow(rows: seq<Row>, keys: seq<seq<string>>, c: nat)
    requires rows != [] && forall i :: 0 <= i < |rows| ==> c < |rows[i].counts|
    requires forall i, j :: 0 <= i < j < |keys| ==> keys[i] != keys[j]
    ensures var init := rows[..|rows| - 1];
      var last := rows[|rows| - 1];
      KeySum(rows, keys, c)
        == KeySum(init, keys, c) + (if GroupKey(last) in keys then last.counts[c] else 0)
  {
    if keys != [] {
      var front := keys[..|keys| - 1];
      KeySumLastRow(rows, front, c);
      var last := rows[|rows| - 1];
      if GroupKey(last) == keys[|keys| - 1] {
        assert GroupKey(last) !in front;
      }
      assert GroupKey(last) in keys <==> GroupKey(last) in front || GroupKey(last) == keys[|keys| - 1];
    }
  }
}
