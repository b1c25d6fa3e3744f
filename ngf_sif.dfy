/** ngf/make_indra_sif.py: the statement table restricted to sources that
    are genes of interest or their FamPlex families and complexes, and to
    targets that are such genes, such families or GO terms. */
module NgfSif {
  import opened Seqs
  import opened Sorting
  import Lex
  import IndraSif

  type Row = IndraSif.Row

  /** The source test: agent A is an HGNC gene of the list or a FamPlex
      entry of the term list. */
  predicate SourceOk(genes: seq<string>, fplxTerms: seq<string>, r: Row)
  {
    || (r.agANs == "HGNC" && r.agAId in genes)
    || (r.agANs == "FPLX" && r.agAId in fplxTerms)
  }

  /** The target test: agent B is an HGNC gene of the list, a FamPlex entry
      of the term list, or any GO term. */
  predicate TargetOk(genes: seq<string>, fplxTerms: seq<string>, r: Row)
  {
    || (r.agBNs == "HGNC" && r.agBId in genes)
    || (r.agBNs == "FPLX" && r.agBId in fplxTerms)
    || r.agBNs == "GO"
  }

  predicate Relevant(genes: seq<string>, fplxTerms: seq<string>, r: Row)
  {
    SourceOk(genes, fplxTerms, r) && TargetOk(genes, fplxTerms, r)
  }

  /** The row mask `source_filter & target_filter`. */
  function Mask(genes: seq<string>, fplxTerms: seq<string>): Row -> bool
  {
    (r: Row) => Relevant(genes, fplxTerms, r)
  }

  /** `filter_to_genes(df, genes, fplx_terms)`. */
  function FilterToGenes(rows: seq<Row>, genes: seq<string>, fplxTerms: seq<string>): (kept: seq<Row>)
    ensures |kept| <= |rows|
  {
    Filter(rows, Mask(genes, fplxTerms))
  }

  /** A row is kept exactly when its source and its target pass their tests,
      in input order; a source that is neither HGNC nor FPLX (a GO term, say)
      is never kept, and a GO target is kept whatever its id. */
  lemma FilterToGenesSpec(rows: seq<Row>, genes: seq<string>, fplxTerms: seq<string>)
    ensures forall r :: r in FilterToGenes(rows, genes, fplxTerms) <==>
      r in rows && SourceOk(genes, fplxTerms, r) && TargetOk(genes, fplxTerms, r)
    ensures IsSubsequence(FilterToGenes(rows, genes, fplxTerms), rows)
    ensures forall r :: r in FilterToGenes(rows, genes, fplxTerms) ==> r.agANs == "HGNC" || r.agANs == "FPLX"
    ensures forall r :: r in rows && SourceOk(genes, fplxTerms, r) && r.agBNs == "GO" ==>
      r in FilterToGenes(rows, genes, fplxTerms)
  {
    FilterMembership(rows, Mask(genes, fplxTerms));
    FilterIsSubsequence(rows, Mask(genes, fplxTerms));
  }

  /** Narrowed to pairs of genes of the list, this selection is the one of
      make_indra_sif.py. */
  lemma NarrowsToGenePairs(rows: seq<Row>, genes: seq<string>, fplxTerms: seq<string>)
    ensures IndraSif.FilterToGenes(FilterToGenes(rows, genes, fplxTerms), genes)
         == IndraSif.FilterToGenes(rows, genes)
  {
    var p := Mask(genes, fplxTerms);
    var q := IndraSif.Mask(genes);
    FilterFilter(rows, p, q, q);
  }

  /** `set(ids)`. */
  function Elements(ids: seq<string>): set<string>
  {
    set x | x in ids
  }

  /** The FamPlex ids of the parents of every gene, as a set. */
  function AllParents(genes: seq<string>, parents: string -> seq<string>): set<string>
  {
    if genes == [] then {}
    else AllParents(genes[..|genes| - 1], parents) + Elements(parents(genes[|genes| - 1]))
  }

  /** An id is in the union exactly when it is a parent of one of the genes. */
  lemma {:induction false} AllParentsSpec(genes: seq<string>, parents: string -> seq<string>)
    ensures forall x :: x in AllParents(genes, parents) <==>
      exists i :: 0 <= i < |genes| && x in parents(genes[i])
  {
    if genes != [] {
      var init := genes[..|genes| - 1];
      AllParentsSpec(init, parents);
      assert forall i :: 0 <= i < |init| ==> init[i] == genes[i];
    }
  }

  /** Python's `<=` on strings is a total preorder. */
  lemma LessEqIsPreorder()
    ensures TotalPreorder(Lex.LessEq)
  {
    forall a, b
      ensures Lex.LessEq(a, b) || Lex.LessEq(b, a)
    {
      Lex.LessTotal(a, b);
    }
    forall a, b, c | Lex.LessEq(a, b) && Lex.LessEq(b, c)
      ensures Lex.LessEq(a, c)
    {
      if a != b && b != c {
        Lex.LessTransitive(a, b, c);
      }
    }
  }

  /** Each element strictly below the next: sorted and without duplicates. */
  ghost predicate StrictlySorted(s: seq<string>)
  {
    forall i, j :: 0 <= i < j < |s| ==> Lex.Less(s[i], s[j])
  }

  /** `get_famplex_terms(genes)`: the parent ids of each gene are added to
      the set `all_parents`, which is then listed and sorted. The hierarchy
      lookup (gene id to name, name to URI, URI to parents, parent URIs to
      ids) is the function parents. */
  method GetFamplexTerms(genes: seq<string>, parents: string -> seq<string>) returns (fplxTerms: seq<string>)
    ensures StrictlySorted(fplxTerms)
    ensures forall x :: x in fplxTerms <==> x in AllParents(genes, parents)
  {
    var allParents: set<string> := {};
    for i := 0 to |genes|
      invariant allParents == AllParents(genes[..i], parents)
    {
      var parentIds := parents(genes[i]);
      allParents := allParents + Elements(parentIds);
      assert genes[..i + 1][..i] == genes[..i];
    }
    assert genes[..|genes|] == genes;
    // list(all_parents)
    var listed: seq<string> := [];
    var rest := allParents;
    while rest != {}
      invariant forall x :: x in allParents <==> x in rest || x in listed
      invariant forall x :: x in rest ==> x !in listed
      invariant forall i, j :: 0 <= i < j < |listed| ==> listed[i] != listed[j]
      decreases |rest|
    {
      var p :| p in rest;
      listed := listed + [p];
      rest := rest - {p};
    }
    fplxTerms := InsertionSort(listed, Lex.LessEq);
    SortedDistinct(listed, fplxTerms);
  }

  /** Sorting a list without duplicates makes it strictly sorted and keeps
      its elements. */
  lemma SortedDistinct(listed: seq<string>, sorted: seq<string>)
    requires sorted == InsertionSort(listed, Lex.LessEq)
    requires forall i, j :: 0 <= i < j < |listed| ==> listed[i] != listed[j]
    ensures StrictlySorted(sorted)
    ensures forall x :: x in sorted <==> x in listed
  {
    LessEqIsPreorder();
    InsertionSortSpec(listed, Lex.LessEq);
    PermutationKeepsDistinct(listed, sorted, (x: string) => x);
    forall x
      ensures x in sorted <==> x in listed
    {
      assert x in sorted <==> x in multiset(sorted);
      assert x in listed <==> x in multiset(listed);
    }
    forall i, j | 0 <= i < j < |sorted|
      ensures Lex.Less(sorted[i], sorted[j])
    {
      assert sorted[i] != sorted[j];
    }
  }

  /** Two strictly sorted lists with the same elements are the same list:
      the terms do not depend on the order the set is listed in. */
  lemma {:induction false} StrictlySortedUnique(a: seq<string>, b: seq<string>)
    requires StrictlySorted(a) && StrictlySorted(b)
    requires forall x :: x in a <==> x in b
    ensures a == b
  {
    if a != [] {
      assert a[0] in b;
    }
    if b != [] {
      assert b[0] in a;
    }
    if a != [] && b != [] {
      if a[0] != b[0] {
        assert b[0] in a;
        assert a[0] in b;
        var i :| 0 <= i < |a| && a[i] == b[0];
        var j :| 0 <= j < |b| && b[j] == a[0];
        assert i > 0 && j > 0;
        assert Lex.Less(a[0], b[0]) && Lex.Less(b[0], a[0]);
        Lex.LessAsymmetric(a[0], b[0]);
        assert false;
      }
      forall x
        ensures x in a[1..] <==> x in b[1..]
      {
        if x in a[1..] {
          var i :| 1 <= i < |a| && a[i] == x;
          assert Lex.Less(a[0], x);
          Lex.LessIrreflexive(x);
          assert x in b;
          var j :| 0 <= j < |b| && b[j] == x;
          assert j != 0 && b[1..][j - 1] == x;
        }
        if x in b[1..] {
          var j :| 1 <= j < |b| && b[j] == x;
          assert Lex.Less(b[0], x);
          Lex.LessIrreflexive(x);
          assert x in a;
          var i :| 0 <= i < |a| && a[i] == x;
          assert i != 0 && a[1..][i - 1] == x;
        }
      }
      StrictlySortedUnique(a[1..], b[1..]);
      assert a == [a[0]] + a[1..] && b == [b[0]] + b[1..];
    }
  }
}
