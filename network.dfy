/** The GeneWalk network as the scorer reads it: the nodes in the graph's
    iteration order, each node's set of distinct neighbours, and the node
    attributes 'HGNC', 'GO' and 'name'. */
module Network {
  import opened Wrappers

  /** A node's attributes: its HGNC id (gene nodes), whether it carries the
      'GO' attribute, and its 'name' (the GO description of a GO node). */
  datatype NodeData = NodeData(hgnc: Option<string>, goFlag: bool, name: Option<string>)

  /** `adj[n]` is the set of distinct neighbours of n, so `|adj[n]|` is
      `len(graph[n])` on the multigraph. */
  datatype Graph = Graph(nodes: seq<string>, adj: map<string, set<string>>, data: map<string, NodeData>)

  /** What an undirected networkx graph guarantees: every node once in the
      iteration order, with attributes and an adjacency set, and symmetric
      adjacency. Every node once: with the first clause, as many adjacency
      entries as positions in the order (NodesDistinct). */
  ghost predicate ValidGraph(g: Graph)
  {
    && (forall n :: n in g.adj <==> n in g.nodes)
    && (forall n :: n in g.data <==> n in g.adj)
    && |g.adj| == |g.nodes|
    && (forall a, b :: a in g.adj && b in g.adj[a] ==> b in g.adj && a in g.adj[b])
  }

  /** N_con: the number of distinct neighbours of n. */
  function Degree(g: Graph, n: string): nat
    requires n in g.adj
  {
    |g.adj[n]|
  }

  /** `GO_nodes`: the nodes that carry the 'GO' attribute. */
  function GoNodes(g: Graph): (r: set<string>)
    ensures forall n :: n in r <==> n in g.data && g.data[n].goFlag
  {
    set n | n in g.data && g.data[n].goFlag
  }

  /** `GO_con2gene`: the GO terms adjacent to a gene. */
  function GoNeighbours(g: Graph, n: string): (r: set<string>)
    requires n in g.adj
    ensures forall t :: t in r <==> t in g.adj[n] && t in g.data && g.data[t].goFlag
  {
    g.adj[n] * GoNodes(g)
  }

  lemma NonEmptyCard(s: set<string>, x: string)
    requires x in s
    ensures |s| >= 1
  {
    assert s == (s - {x}) + {x};
  }

  /** A GO term adjacent to a gene is itself a node, and both have at least
      one neighbour: the bucket key floor(log2 min(N_con(GO), N_con(gene)))
      is always defined and non-negative. */
  lemma GoNeighbourDegrees(g: Graph, n: string, t: string)
    requires ValidGraph(g) && n in g.adj && t in GoNeighbours(g, n)
    ensures t in g.adj && t in g.data
    ensures Degree(g, t) >= 1 && Degree(g, n) >= 1
  {
    NonEmptyCard(g.adj[n], t);
    NonEmptyCard(g.adj[t], n);
  }

  /** A sequence with a repeated element has fewer distinct elements than
      positions. */
  lemma {:induction false} RepeatShrinks<T>(s: seq<T>, i: nat, j: nat)
    requires i < j < |s| && s[i] == s[j]
    ensures |set x | x in s| < |s|
  {
    var init := s[..|s| - 1];
    var last := s[|s| - 1];
    assert (set x | x in s) == (set x | x in init) + {last} by {
      assert s == init + [last];
    }
    if j == |s| - 1 {
      assert init[i] == last;
      assert (set x | x in s) == (set x | x in init);
      SetOfSeqBound(init);
    } else {
      assert init[i] == init[j];
      RepeatShrinks(init, i, j);
    }
  }

  lemma {:induction false} SetOfSeqBound<T>(s: seq<T>)
    ensures |set x | x in s| <= |s|
  {
    if s != [] {
      var init := s[..|s| - 1];
      assert s == init + [s[|s| - 1]];
      assert (set x | x in s) == (set x | x in init) + {s[|s| - 1]};
      SetOfSeqBound(init);
    }
  }

  /** The iteration order lists every node once. */
  lemma NodesDistinct(g: Graph)
    requires ValidGraph(g)
    ensures forall i, j :: 0 <= i < j < |g.nodes| ==> g.nodes[i] != g.nodes[j]
  {
    assert g.adj.Keys == set x | x in g.nodes;
    forall i, j | 0 <= i < j < |g.nodes|
      ensures g.nodes[i] != g.nodes[j]
    {
      if g.nodes[i] == g.nodes[j] {
        RepeatShrinks(g.nodes, i, j);
      }
    }
  }
}
